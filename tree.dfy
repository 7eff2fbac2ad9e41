/**
 * The document tree the engine works on, as the HTML library keeps it: a
 * store of nodes addressed by identifiers, where element nodes hold an
 * ordered attribute list and the identifiers of their children, and every
 * node but the root remembers its parent. Node 0 is the root the parser
 * returns (an element without a tag). Operations that detach a node leave
 * it in the store, still pointing at its old parent, as the library's
 * objects stay alive while the engine holds them in its snapshots.
 */
module Tree {
  import opened Wrappers

  type NodeId = nat

  datatype Attr = Attr(name: string, value: string)

  datatype Node =
    | Element(tag: string, attrs: seq<Attr>, children: seq<NodeId>, parent: Option<NodeId>)
    | Text(text: string, parent: Option<NodeId>)

  /** The value of the subtree below a node, without identifiers. */
  datatype Tree = Elem(tag: string, attrs: seq<Attr>, kids: seq<Tree>) | Leaf(text: string)

  // ---------------------------------------------------------------------
  // Well-formed stores
  // ---------------------------------------------------------------------

  /** Children are stored after their parent. */
  predicate ChildrenAfter(a: seq<Node>, i: nat)
    requires i < |a|
  {
    a[i].Element? ==> forall j :: 0 <= j < |a[i].children| ==> i < a[i].children[j] < |a|
  }

  /** Every node but the root names an element stored before it as parent. */
  predicate ParentBefore(a: seq<Node>, i: nat)
    requires i < |a|
  {
    match a[i].parent
    case None => i == 0
    case Some(p) => p < i && a[p].Element?
  }

  predicate WellFormed(a: seq<Node>)
  {
    |a| > 0 && a[0].Element?
    && forall i :: 0 <= i < |a| ==> ChildrenAfter(a, i) && ParentBefore(a, i)
  }

  /** What a node is apart from its links: kind, tag, attributes, text. */
  function Label(n: Node): Node
  {
    match n
    case Element(tag, attrs, _, _) => Element(tag, attrs, [], None)
    case Text(t, _) => Text(t, None)
  }

  /** b has every node of a, each still of the same kind. */
  ghost predicate Grows(a: seq<Node>, b: seq<Node>)
  {
    |a| <= |b| && forall j :: 0 <= j < |a| ==> b[j].Element? == a[j].Element?
  }

  /** b has every node of a with its label: only links changed or nodes
      were added. */
  ghost predicate KeepsLabels(a: seq<Node>, b: seq<Node>)
  {
    |a| <= |b| && forall j :: 0 <= j < |a| ==> Label(b[j]) == Label(a[j])
  }

  lemma KeepsLabelsGrows(a: seq<Node>, b: seq<Node>)
    requires KeepsLabels(a, b)
    ensures Grows(a, b)
  {
    forall j | 0 <= j < |a| ensures b[j].Element? == a[j].Element? {
      assert Label(b[j]) == Label(a[j]);
    }
  }

  lemma KeepsLabelsTrans(a: seq<Node>, b: seq<Node>, c: seq<Node>)
    requires KeepsLabels(a, b) && KeepsLabels(b, c)
    ensures KeepsLabels(a, c)
  {
  }

  lemma GrowsTrans(a: seq<Node>, b: seq<Node>, c: seq<Node>)
    requires Grows(a, b) && Grows(b, c)
    ensures Grows(a, c)
  {
  }

  /** The subtree below node n. */
  function ToTree(a: seq<Node>, n: NodeId): Tree
    requires WellFormed(a) && n < |a|
    decreases |a| - n
  {
    match a[n]
    case Text(t, _) => Leaf(t)
    case Element(tag, attrs, cs, _) =>
      assert ChildrenAfter(a, n);
      Elem(tag, attrs, seq(|cs|, k requires 0 <= k < |cs| => ToTree(a, cs[k])))
  }

  /** Whatever lies outside [n, |a|) does not affect the subtree below n. */
  lemma {:induction false} ToTreeFrame(a: seq<Node>, b: seq<Node>, n: NodeId)
    requires WellFormed(a) && WellFormed(b) && n < |a| <= |b|
    requires forall j :: n <= j < |a| ==> b[j] == a[j]
    ensures ToTree(b, n) == ToTree(a, n)
    decreases |a| - n
  {
    if a[n].Element? {
      var cs := a[n].children;
      assert ChildrenAfter(a, n);
      forall k | 0 <= k < |cs| ensures ToTree(b, cs[k]) == ToTree(a, cs[k]) {
        ToTreeFrame(a, b, cs[k]);
      }
    }
  }

  // ---------------------------------------------------------------------
  // Text content and serialisation
  // ---------------------------------------------------------------------

  /** `textContent`: the text of every leaf below, in document order. */
  function TextContent(t: Tree): string
  {
    match t
    case Leaf(s) => s
    case Elem(_, _, kids) => KidsText(kids)
  }

  function KidsText(kids: seq<Tree>): string
  {
    if kids == [] then "" else TextContent(kids[0]) + KidsText(kids[1..])
  }

  /** `toString`: the root has no tag and prints only its children; an
      attribute with an empty value prints as its bare name. */
  function Render(t: Tree): string
  {
    match t
    case Leaf(s) => s
    case Elem(tag, attrs, kids) =>
      if tag == "" then RenderKids(kids)
      else "<" + tag + RenderAttrs(attrs) + ">" + RenderKids(kids) + "</" + tag + ">"
  }

  function RenderKids(kids: seq<Tree>): string
  {
    if kids == [] then "" else Render(kids[0]) + RenderKids(kids[1..])
  }

  function RenderAttrs(attrs: seq<Attr>): string
  {
    if attrs == [] then ""
    else
      var at := attrs[0];
      (if at.value == "" then " " + at.name else " " + at.name + "=\"" + at.value + "\"")
      + RenderAttrs(attrs[1..])
  }

  // ---------------------------------------------------------------------
  // Attribute lists
  // ---------------------------------------------------------------------

  /** `getAttribute`: the value of the first attribute with that name. */
  function GetAttr(attrs: seq<Attr>, name: string): (r: Option<string>)
    ensures r.Some? <==> exists i :: 0 <= i < |attrs| && attrs[i].name == name
    ensures r.Some? ==> Attr(name, r.value) in attrs
  {
    if attrs == [] then None
    else if attrs[0].name == name then Some(attrs[0].value)
    else GetAttr(attrs[1..], name)
  }

  /** `setAttribute`: an existing attribute keeps its place and takes the
      new value; otherwise the attribute is added at the end. */
  function SetAttr(attrs: seq<Attr>, name: string, value: string): (r: seq<Attr>)
  {
    if GetAttr(attrs, name).Some? then Update(attrs, name, value)
    else attrs + [Attr(name, value)]
  }

  function Update(attrs: seq<Attr>, name: string, value: string): (r: seq<Attr>)
    ensures |r| == |attrs|
    ensures forall i :: 0 <= i < |r| ==>
      r[i] == if attrs[i].name == name then Attr(name, value) else attrs[i]
  {
    if attrs == [] then []
    else [if attrs[0].name == name then Attr(name, value) else attrs[0]] + Update(attrs[1..], name, value)
  }

  /** `removeAttribute`: every attribute with that name goes. */
  function RemoveAttr(attrs: seq<Attr>, name: string): (r: seq<Attr>)
    ensures forall at :: at in r <==> at in attrs && at.name != name
  {
    if attrs == [] then []
    else (if attrs[0].name == name then [] else [attrs[0]]) + RemoveAttr(attrs[1..], name)
  }

  lemma {:induction false} GetAttrAfterSet(attrs: seq<Attr>, name: string, value: string, other: string)
    ensures GetAttr(SetAttr(attrs, name, value), other)
         == if other == name then Some(value) else GetAttr(attrs, other)
  {
    if GetAttr(attrs, name).Some? {
      GetAttrAfterUpdate(attrs, name, value, other);
    } else {
      GetAttrAppend(attrs, Attr(name, value), other);
    }
  }

  lemma {:induction false} GetAttrAfterUpdate(attrs: seq<Attr>, name: string, value: string, other: string)
    requires GetAttr(attrs, name).Some?
    ensures GetAttr(Update(attrs, name, value), other)
         == if other == name then Some(value) else GetAttr(attrs, other)
  {
    var u := Update(attrs, name, value);
    assert u[0] == if attrs[0].name == name then Attr(name, value) else attrs[0];
    assert u[1..] == Update(attrs[1..], name, value);
    if attrs[0].name != name {
      GetAttrAfterUpdate(attrs[1..], name, value, other);
    } else if other != name {
      GetAttrUpdateOther(attrs[1..], name, value, other);
    }
  }

  lemma {:induction false} GetAttrUpdateOther(attrs: seq<Attr>, name: string, value: string, other: string)
    requires other != name
    ensures GetAttr(Update(attrs, name, value), other) == GetAttr(attrs, other)
  {
    if attrs != [] {
      var u := Update(attrs, name, value);
      assert u[1..] == Update(attrs[1..], name, value);
      GetAttrUpdateOther(attrs[1..], name, value, other);
    }
  }

  lemma {:induction false} GetAttrAppend(attrs: seq<Attr>, at: Attr, other: string)
    requires GetAttr(attrs, at.name).None?
    ensures GetAttr(attrs + [at], other) == if other == at.name then Some(at.value) else GetAttr(attrs, other)
  {
    if attrs != [] {
      assert (attrs + [at])[1..] == attrs[1..] + [at];
      GetAttrAppend(attrs[1..], at, other);
    }
  }

  lemma {:induction false} GetAttrAfterRemove(attrs: seq<Attr>, name: string, other: string)
    ensures GetAttr(RemoveAttr(attrs, name), other)
         == if other == name then None else GetAttr(attrs, other)
  {
    if attrs != [] {
      GetAttrAfterRemove(attrs[1..], name, other);
      var rest := RemoveAttr(attrs[1..], name);
      if attrs[0].name != name {
        GetAttrCons(attrs[0], rest, other);
      } else {
        assert RemoveAttr(attrs, name) == rest;
      }
    }
  }

  lemma GetAttrCons(at: Attr, rest: seq<Attr>, other: string)
    ensures GetAttr([at] + rest, other) == if at.name == other then Some(at.value) else GetAttr(rest, other)
  {
    assert ([at] + rest)[1..] == rest;
  }

  predicate HasAttr(n: Node, name: string)
  {
    n.Element? && GetAttr(n.attrs, name).Some?
  }

  // ---------------------------------------------------------------------
  // Queries
  // ---------------------------------------------------------------------

  /** `querySelectorAll('[name]')` on node n: the elements strictly below n
      that carry the attribute, in document order. */
  function Select(a: seq<Node>, n: NodeId, name: string): (r: seq<NodeId>)
    requires WellFormed(a) && n < |a|
    ensures forall i :: 0 <= i < |r| ==> n < r[i] < |a| && HasAttr(a[r[i]], name)
    decreases |a| - n, 1
  {
    match a[n]
    case Text(_, _) => []
    case Element(_, _, cs, _) =>
      assert ChildrenAfter(a, n);
      SelectKids(a, n, cs, name)
  }

  function SelectKids(a: seq<Node>, n: NodeId, cs: seq<NodeId>, name: string): (r: seq<NodeId>)
    requires WellFormed(a) && n < |a|
    requires forall j :: 0 <= j < |cs| ==> n < cs[j] < |a|
    ensures forall i :: 0 <= i < |r| ==> n < r[i] < |a| && HasAttr(a[r[i]], name)
    decreases |a| - n, 0, |cs|
  {
    if cs == [] then []
    else
      var head := if HasAttr(a[cs[0]], name) then [cs[0]] else [];
      var below := Select(a, cs[0], name);
      var rest := SelectKids(a, n, cs[1..], name);
      FoundConcat(a, n, name, head, below);
      FoundConcat(a, n, name, head + below, rest);
      head + below + rest
  }

  /** The elements below n that carry the attribute. */
  ghost predicate FoundBelow(a: seq<Node>, n: NodeId, name: string, r: seq<NodeId>)
  {
    forall i :: 0 <= i < |r| ==> n < r[i] < |a| && HasAttr(a[r[i]], name)
  }

  lemma FoundConcat(a: seq<Node>, n: NodeId, name: string, x: seq<NodeId>, y: seq<NodeId>)
    requires FoundBelow(a, n, name, x) && FoundBelow(a, n, name, y)
    ensures FoundBelow(a, n, name, x + y)
  {
    forall i | 0 <= i < |x + y| ensures n < (x + y)[i] < |a| && HasAttr(a[(x + y)[i]], name) {
      if i >= |x| {
        assert (x + y)[i] == y[i - |x|];
      }
    }
  }

  /** j is reached from n by following child links one or more times. */
  ghost predicate Descends(a: seq<Node>, n: NodeId, j: NodeId)
    requires WellFormed(a) && n < |a|
    decreases |a| - n
  {
    a[n].Element? &&
    assert ChildrenAfter(a, n);
    exists k :: 0 <= k < |a[n].children| && (a[n].children[k] == j || Descends(a, a[n].children[k], j))
  }

  /** Everything the query returns lies below n and carries the attribute. */
  lemma {:induction false} SelectSound(a: seq<Node>, n: NodeId, name: string, j: NodeId)
    requires WellFormed(a) && n < |a|
    ensures j in Select(a, n, name) ==> j < |a| && Descends(a, n, j) && HasAttr(a[j], name)
    decreases |a| - n, 1
  {
    if j in Select(a, n, name) {
      assert ChildrenAfter(a, n);
      SelectKidsSound(a, n, a[n].children, name, j);
    }
  }

  lemma {:induction false} SelectKidsSound(a: seq<Node>, n: NodeId, cs: seq<NodeId>, name: string, j: NodeId)
    requires WellFormed(a) && n < |a|
    requires forall i :: 0 <= i < |cs| ==> n < cs[i] < |a|
    ensures j in SelectKids(a, n, cs, name) ==>
      exists k :: 0 <= k < |cs| && (cs[k] == j || Descends(a, cs[k], j))
    decreases |a| - n, 0, |cs|
  {
    if cs != [] && j in SelectKids(a, n, cs, name) {
      var head := if HasAttr(a[cs[0]], name) then [cs[0]] else [];
      var below := Select(a, cs[0], name);
      var rest := SelectKids(a, n, cs[1..], name);
      assert SelectKids(a, n, cs, name) == head + below + rest;
      assert j in head || j in below || j in rest;
      if j in head {
        assert cs[0] == j;
      } else if j in below {
        SelectSound(a, cs[0], name, j);
        assert Descends(a, cs[0], j);
      } else {
        SelectKidsSound(a, n, cs[1..], name, j);
        var k :| 0 <= k < |cs[1..]| && (cs[1..][k] == j || Descends(a, cs[1..][k], j));
        assert cs[k + 1] == cs[1..][k];
        assert cs[k + 1] == j || Descends(a, cs[k + 1], j);
      }
    }
  }

  /** Every element below n that carries the attribute is returned. */
  lemma {:induction false} SelectComplete(a: seq<Node>, n: NodeId, name: string, j: NodeId)
    requires WellFormed(a) && n < |a|
    ensures Descends(a, n, j) && j < |a| && HasAttr(a[j], name) ==> j in Select(a, n, name)
    decreases |a| - n, 1
  {
    if Descends(a, n, j) && j < |a| && HasAttr(a[j], name) {
      assert ChildrenAfter(a, n);
      var k :| 0 <= k < |a[n].children| && (a[n].children[k] == j || Descends(a, a[n].children[k], j));
      SelectKidsComplete(a, n, a[n].children, name, k, j);
    }
  }

  lemma {:induction false} SelectKidsComplete(a: seq<Node>, n: NodeId, cs: seq<NodeId>, name: string, k: nat, j: NodeId)
    requires WellFormed(a) && n < |a|
    requires forall i :: 0 <= i < |cs| ==> n < cs[i] < |a|
    requires k < |cs| && j < |a| && HasAttr(a[j], name)
    requires cs[k] == j || Descends(a, cs[k], j)
    ensures j in SelectKids(a, n, cs, name)
    decreases |a| - n, 0, |cs|
  {
    var head := if HasAttr(a[cs[0]], name) then [cs[0]] else [];
    assert SelectKids(a, n, cs, name) == head + Select(a, cs[0], name) + SelectKids(a, n, cs[1..], name);
    if k == 0 {
      if cs[0] != j {
        SelectComplete(a, cs[0], name, j);
      }
    } else {
      assert cs[1..][k - 1] == cs[k];
      SelectKidsComplete(a, n, cs[1..], name, k - 1, j);
    }
  }

  /** The same frame as for subtrees holds for queries. */
  lemma {:induction false} SelectFrame(a: seq<Node>, b: seq<Node>, n: NodeId, name: string)
    requires WellFormed(a) && WellFormed(b) && n < |a| <= |b|
    requires forall j :: n <= j < |a| ==> b[j] == a[j]
    ensures Select(b, n, name) == Select(a, n, name)
    decreases |a| - n, 1
  {
    if a[n].Element? {
      assert ChildrenAfter(a, n);
      SelectKidsFrame(a, b, n, a[n].children, name);
    }
  }

  lemma {:induction false} SelectKidsFrame(a: seq<Node>, b: seq<Node>, n: NodeId, cs: seq<NodeId>, name: string)
    requires WellFormed(a) && WellFormed(b) && n < |a| <= |b|
    requires forall j :: n <= j < |a| ==> b[j] == a[j]
    requires forall j :: 0 <= j < |cs| ==> n < cs[j] < |a|
    ensures SelectKids(b, n, cs, name) == SelectKids(a, n, cs, name)
    decreases |a| - n, 0, |cs|
  {
    if cs != [] {
      SelectFrame(a, b, cs[0], name);
      SelectKidsFrame(a, b, n, cs[1..], name);
    }
  }

  // ---------------------------------------------------------------------
  // Changes to the store
  // ---------------------------------------------------------------------

  /** Stores the tree t as fresh nodes after the existing ones, its root at
      identifier |a| with parent p. This is the shape `clone` produces. */
  function Graft(a: seq<Node>, t: Tree, p: NodeId): (b: seq<Node>)
    ensures |b| > |a| && b[..|a|] == a
    decreases t
  {
    match t
    case Leaf(s) => a + [Text(s, Some(p))]
    case Elem(tag, attrs, kids) =>
      var root := |a|;
      var a1 := a + [Element(tag, attrs, [], Some(p))];
      var (a2, ids) := GraftKids(a1, kids, root);
      assert a2[..|a|] == a by { assert a2[..|a1|][..|a|] == a2[..|a|]; }
      a2[root := Element(tag, attrs, ids, Some(p))]
  }

  /** Stores a list of trees one after the other, all with parent p, and
      returns their root identifiers. */
  function GraftKids(a: seq<Node>, ts: seq<Tree>, p: NodeId): (r: (seq<Node>, seq<NodeId>))
    ensures |r.0| >= |a| && r.0[..|a|] == a && |r.1| == |ts|
    ensures forall k :: 0 <= k < |r.1| ==> |a| <= r.1[k] < |r.0|
    decreases ts
  {
    if ts == [] then (a, [])
    else
      var a1 := Graft(a, ts[0], p);
      var (a2, ids) := GraftKids(a1, ts[1..], p);
      assert a2[..|a|] == a by { assert a2[..|a1|][..|a|] == a2[..|a|]; }
      (a2, [|a|] + ids)
  }

  /** Grafting keeps the store well formed and leaves exactly t below the
      new root. */
  lemma {:induction false} GraftCorrect(a: seq<Node>, t: Tree, p: NodeId)
    requires WellFormed(a) && p < |a| && a[p].Element?
    ensures var b := Graft(a, t, p);
      WellFormed(b) && b[|a|].parent == Some(p) && ToTree(b, |a|) == t && InsideFrom(b, |a|)
    decreases t
  {
    var b := Graft(a, t, p);
    match t
    case Leaf(s) =>
      assert forall i :: 0 <= i < |a| ==> b[i] == a[i];
      assert forall i :: 0 <= i < |b| ==> ChildrenAfter(b, i) && ParentBefore(b, i) by {
        forall i | 0 <= i < |b| ensures ChildrenAfter(b, i) && ParentBefore(b, i) {
          if i < |a| { assert ChildrenAfter(a, i) && ParentBefore(a, i); }
        }
      }
    case Elem(tag, attrs, kids) =>
      var root := |a|;
      var a1 := a + [Element(tag, attrs, [], Some(p))];
      AppendLeafWellFormed(a, a1, p);
      GraftKidsCorrect(a1, kids, root);
      var (a2, ids) := GraftKids(a1, kids, root);
      assert b == a2[root := Element(tag, attrs, ids, Some(p))];
      assert a2[root] == a1[root] by { assert a2[..|a1|][root] == a1[root]; }
      SetChildrenWellFormed(a2, root, ids, b);
      forall k | 0 <= k < |ids| ensures ToTree(b, ids[k]) == kids[k] {
        ToTreeFrame(a2, b, ids[k]);
      }
      assert ToTree(b, root).kids == kids;
      forall j | root < j < |b| ensures b[j].parent.Some? && root <= b[j].parent.value {
        assert b[j] == a2[j];
      }
  }

  lemma {:induction false} GraftKidsCorrect(a: seq<Node>, ts: seq<Tree>, p: NodeId)
    requires WellFormed(a) && p < |a| && a[p].Element?
    ensures var (b, ids) := GraftKids(a, ts, p);
      WellFormed(b)
      && (forall k :: 0 <= k < |ids| ==> b[ids[k]].parent == Some(p) && ToTree(b, ids[k]) == ts[k])
      && forall j :: |a| <= j < |b| ==> b[j].parent.Some? && (b[j].parent.value == p || |a| <= b[j].parent.value)
    decreases ts
  {
    if ts != [] {
      var a1 := Graft(a, ts[0], p);
      GraftCorrect(a, ts[0], p);
      assert a1[p] == a[p] by { assert a1[..|a|][p] == a[p]; }
      GraftKidsCorrect(a1, ts[1..], p);
      var (a2, ids) := GraftKids(a1, ts[1..], p);
      assert forall j :: 0 <= j < |a1| ==> a2[j] == a1[j] by {
        forall j | 0 <= j < |a1| ensures a2[j] == a1[j] { assert a2[..|a1|][j] == a2[j]; }
      }
      ToTreeFrame(a1, a2, |a|);
      var all := [|a|] + ids;
      assert GraftKids(a, ts, p) == (a2, all);
      forall k | 0 <= k < |all| ensures a2[all[k]].parent == Some(p) && ToTree(a2, all[k]) == ts[k] {
        if k > 0 { assert all[k] == ids[k - 1]; assert ts[k] == ts[1..][k - 1]; }
      }
      forall j | |a| <= j < |a2| ensures a2[j].parent.Some? && (a2[j].parent.value == p || |a| <= a2[j].parent.value) {
        if j < |a1| { assert a2[j] == a1[j]; }
      }
    }
  }

  /** Every node stored after c hangs, directly or not, below c: its parent
      is c or a later node. */
  ghost predicate InsideFrom(a: seq<Node>, c: NodeId)
  {
    c < |a| && forall j :: c < j < |a| ==> a[j].parent.Some? && c <= a[j].parent.value
  }

  /** Adding a childless element below an element keeps the store well formed. */
  lemma AppendLeafWellFormed(a: seq<Node>, a1: seq<Node>, p: NodeId)
    requires WellFormed(a) && p < |a| && a[p].Element? && |a1| == |a| + 1 && a1[..|a|] == a
    requires a1[|a|].parent == Some(p) && (a1[|a|].Element? ==> a1[|a|].children == [])
    ensures WellFormed(a1)
  {
    forall i | 0 <= i < |a1| ensures ChildrenAfter(a1, i) && ParentBefore(a1, i) {
      if i < |a| {
        assert a1[i] == a[i];
        assert ChildrenAfter(a, i) && ParentBefore(a, i);
        match a[i].parent {
          case None =>
          case Some(q) => assert a1[q] == a[q];
        }
      }
    }
  }

  /** Giving an element children stored after it keeps the store well formed. */
  lemma SetChildrenWellFormed(a: seq<Node>, n: NodeId, cs: seq<NodeId>, b: seq<Node>)
    requires WellFormed(a) && n < |a| && a[n].Element?
    requires forall k :: 0 <= k < |cs| ==> n < cs[k] < |a|
    requires b == a[n := a[n].(children := cs)]
    ensures WellFormed(b)
  {
    forall i | 0 <= i < |b| ensures ChildrenAfter(b, i) && ParentBefore(b, i) {
      assert ChildrenAfter(a, i) && ParentBefore(a, i);
    }
  }

  /** The list with its first occurrence of x replaced by y. */
  function ReplaceFirst(cs: seq<NodeId>, x: NodeId, y: NodeId): (r: seq<NodeId>)
    ensures |r| == |cs|
    ensures forall k :: 0 <= k < |cs| ==> r[k] == cs[k] || (cs[k] == x && r[k] == y)
  {
    if cs == [] then []
    else if cs[0] == x then [y] + cs[1..]
    else [cs[0]] + ReplaceFirst(cs[1..], x, y)
  }

  /** Only the first occurrence is replaced. */
  lemma {:induction false} ReplaceFirstAt(cs: seq<NodeId>, x: NodeId, y: NodeId, k: nat)
    requires k < |cs| && cs[k] == x && forall j :: 0 <= j < k ==> cs[j] != x
    ensures ReplaceFirst(cs, x, y) == cs[k := y]
  {
    if k == 0 {
      UpdateHead(cs, y);
    } else {
      var tail := cs[1..];
      assert forall j :: 0 <= j < k - 1 ==> tail[j] == cs[j + 1];
      ReplaceFirstAt(tail, x, y, k - 1);
      UpdateTail(cs, k, y);
    }
  }

  lemma UpdateHead(cs: seq<NodeId>, y: NodeId)
    requires cs != []
    ensures cs[0 := y] == [y] + cs[1..]
  {
  }

  lemma UpdateTail(cs: seq<NodeId>, k: nat, y: NodeId)
    requires 0 < k < |cs|
    ensures cs[k := y] == [cs[0]] + cs[1..][k - 1 := y]
  {
  }

  lemma {:induction false} ReplaceFirstAbsent(cs: seq<NodeId>, x: NodeId, y: NodeId)
    requires x !in cs
    ensures ReplaceFirst(cs, x, y) == cs
  {
    if cs != [] {
      ReplaceFirstAbsent(cs[1..], x, y);
    }
  }

  /** `parentNode` of a node other than the root. */
  function ParentOf(a: seq<Node>, x: NodeId): (p: NodeId)
    requires WellFormed(a) && 0 < x < |a|
    ensures p < x && a[p].Element? && a[x].parent == Some(p)
  {
    assert ParentBefore(a, x);
    a[x].parent.value
  }

  /** `replaceWith(text)` on node x: a fresh text node takes x's place among
      its parent's children. x itself stays in the store, detached. */
  function ReplaceWithText(a: seq<Node>, x: NodeId, s: string): (b: seq<Node>)
    requires WellFormed(a) && 0 < x < |a|
    ensures WellFormed(b) && |b| == |a| + 1 && KeepsLabels(a, b)
    ensures var p := ParentOf(a, x);
      && b[|a|] == Text(s, Some(p))
      && b[p] == a[p].(children := ReplaceFirst(a[p].children, x, |a|))
      && forall j :: 0 <= j < |a| && j != p ==> b[j] == a[j]
  {
    var p := ParentOf(a, x);
    var b := a[p := a[p].(children := ReplaceFirst(a[p].children, x, |a|))] + [Text(s, Some(p))];
    ReplaceWithTextWellFormed(a, p, x, s, b);
    b
  }

  lemma ReplaceWithTextWellFormed(a: seq<Node>, p: NodeId, x: NodeId, s: string, b: seq<Node>)
    requires WellFormed(a) && p < |a| && a[p].Element?
    requires b == a[p := a[p].(children := ReplaceFirst(a[p].children, x, |a|))] + [Text(s, Some(p))]
    ensures WellFormed(b)
  {
    forall i | 0 <= i < |b| ensures ChildrenAfter(b, i) && ParentBefore(b, i) {
      if i < |a| {
        assert ChildrenAfter(a, i) && ParentBefore(a, i);
      }
    }
  }

  /** `innerHTML = ''` on element p: it has no children left. */
  function ClearChildren(a: seq<Node>, p: NodeId): (b: seq<Node>)
    requires WellFormed(a) && p < |a| && a[p].Element?
    ensures WellFormed(b) && |b| == |a| && KeepsLabels(a, b)
    ensures b[p] == a[p].(children := []) && forall j :: 0 <= j < |a| && j != p ==> b[j] == a[j]
  {
    var b := a[p := a[p].(children := [])];
    SetChildrenWellFormed(a, p, [], b);
    b
  }

  /** `appendChild`: node c becomes the last child of element p. */
  function AppendChild(a: seq<Node>, p: NodeId, c: NodeId): (b: seq<Node>)
    requires WellFormed(a) && p < c < |a| && a[p].Element?
    ensures WellFormed(b) && |b| == |a| && KeepsLabels(a, b)
    ensures b[p] == a[p].(children := a[p].children + [c]) && b[c] == a[c].(parent := Some(p))
    ensures forall j :: 0 <= j < |a| && j != p && j != c ==> b[j] == a[j]
  {
    var a1 := a[p := a[p].(children := a[p].children + [c])];
    assert ChildrenAfter(a, p);
    SetChildrenWellFormed(a, p, a[p].children + [c], a1);
    var b := a1[c := a1[c].(parent := Some(p))];
    forall i | 0 <= i < |b| ensures ChildrenAfter(b, i) && ParentBefore(b, i) {
      assert ChildrenAfter(a1, i) && ParentBefore(a1, i);
    }
    b
  }

  /** Gives element x a new attribute list. */
  function SetAttrs(a: seq<Node>, x: NodeId, attrs: seq<Attr>): (b: seq<Node>)
    requires WellFormed(a) && x < |a| && a[x].Element?
    ensures WellFormed(b) && |b| == |a| && Grows(a, b)
    ensures b[x] == a[x].(attrs := attrs) && forall j :: 0 <= j < |a| && j != x ==> b[j] == a[j]
  {
    var b := a[x := a[x].(attrs := attrs)];
    forall i | 0 <= i < |b| ensures ChildrenAfter(b, i) && ParentBefore(b, i) {
      assert ChildrenAfter(a, i) && ParentBefore(a, i);
    }
    b
  }

  /** The store the parser's result occupies: a root without a tag (node 0)
      above the parsed top-level nodes. */
  function Build(ts: seq<Tree>): (a: seq<Node>)
    ensures |a| > 0
  {
    var (a1, ids) := GraftKids([Element("", [], [], None)], ts, 0);
    a1[0 := Element("", [], ids, None)]
  }

  lemma BuildCorrect(ts: seq<Tree>)
    ensures WellFormed(Build(ts)) && ToTree(Build(ts), 0) == Elem("", [], ts)
  {
    var a0 := [Element("", [], [], None)];
    assert ChildrenAfter(a0, 0) && ParentBefore(a0, 0);
    GraftKidsCorrect(a0, ts, 0);
    var (a1, ids) := GraftKids(a0, ts, 0);
    var b := Build(ts);
    assert a1[0] == a0[0] by { assert a1[..1][0] == a1[0]; }
    SetChildrenWellFormed(a1, 0, ids, b);
    forall k | 0 <= k < |ids| ensures ToTree(b, ids[k]) == ts[k] {
      ToTreeFrame(a1, b, ids[k]);
    }
    assert ToTree(b, 0).kids == ts;
  }

  /** `clone` of node x, stored as fresh nodes with parent p. */
  function Clone(a: seq<Node>, x: NodeId, p: NodeId): (b: seq<Node>)
    requires WellFormed(a) && x < |a| && p < |a| && a[p].Element?
    ensures WellFormed(b) && KeepsLabels(a, b) && |b| > |a| && b[..|a|] == a
    ensures b[|a|].parent == Some(p) && ToTree(b, |a|) == ToTree(a, x) && InsideFrom(b, |a|)
  {
    GraftCorrect(a, ToTree(a, x), p);
    var b := Graft(a, ToTree(a, x), p);
    assert forall j :: 0 <= j < |a| ==> b[j] == a[j] by {
      forall j | 0 <= j < |a| ensures b[j] == a[j] { assert b[..|a|][j] == b[j]; }
    }
    b
  }

  /** Setting a node's attributes twice keeps only the second list. */
  lemma SetAttrsTwice(a: seq<Node>, x: NodeId, s1: seq<Attr>, s2: seq<Attr>)
    requires WellFormed(a) && x < |a| && a[x].Element?
    ensures SetAttrs(SetAttrs(a, x, s1), x, s2) == SetAttrs(a, x, s2)
  {
  }

  /** A subtree determines the label of its root. */
  lemma LabelOfTree(a: seq<Node>, n: NodeId, b: seq<Node>, m: NodeId)
    requires WellFormed(a) && n < |a| && WellFormed(b) && m < |b|
    requires ToTree(a, n) == ToTree(b, m)
    ensures Label(a[n]) == Label(b[m])
  {
  }

  // ---------------------------------------------------------------------
  // Attributes mentioned below a node
  // ---------------------------------------------------------------------

  /** Some element of t carries the attribute. */
  predicate Mentions(t: Tree, name: string)
  {
    match t
    case Leaf(_) => false
    case Elem(_, attrs, kids) => GetAttr(attrs, name).Some? || KidsMention(kids, name)
  }

  predicate KidsMention(kids: seq<Tree>, name: string)
  {
    kids != [] && (Mentions(kids[0], name) || KidsMention(kids[1..], name))
  }

  /** The subtrees of a list of children. */
  function Subtrees(a: seq<Node>, cs: seq<NodeId>): (r: seq<Tree>)
    requires WellFormed(a) && forall j :: 0 <= j < |cs| ==> cs[j] < |a|
    ensures |r| == |cs| && forall k :: 0 <= k < |cs| ==> r[k] == ToTree(a, cs[k])
  {
    seq(|cs|, k requires 0 <= k < |cs| => ToTree(a, cs[k]))
  }

  /** A query below n finds nothing exactly when no element strictly below
      n carries the attribute. */
  lemma {:induction false} SelectEmptyIff(a: seq<Node>, n: NodeId, name: string)
    requires WellFormed(a) && n < |a|
    ensures Select(a, n, name) == [] <==> !(ToTree(a, n).Elem? && KidsMention(ToTree(a, n).kids, name))
    decreases |a| - n, 1
  {
    if a[n].Element? {
      assert ChildrenAfter(a, n);
      var cs := a[n].children;
      SelectKidsEmptyIff(a, n, cs, name);
      assert ToTree(a, n).kids == Subtrees(a, cs);
    }
  }

  lemma {:induction false} SelectKidsEmptyIff(a: seq<Node>, n: NodeId, cs: seq<NodeId>, name: string)
    requires WellFormed(a) && n < |a|
    requires forall j :: 0 <= j < |cs| ==> n < cs[j] < |a|
    ensures SelectKids(a, n, cs, name) == [] <==> !KidsMention(Subtrees(a, cs), name)
    decreases |a| - n, 0, |cs|
  {
    if cs != [] {
      var ts := Subtrees(a, cs);
      SelectEmptyIff(a, cs[0], name);
      SelectKidsEmptyIff(a, n, cs[1..], name);
      assert ts[1..] == Subtrees(a, cs[1..]);
      assert ts[0] == ToTree(a, cs[0]);
      assert HasAttr(a[cs[0]], name) <==> ts[0].Elem? && GetAttr(ts[0].attrs, name).Some?;
      assert Mentions(ts[0], name) <==> HasAttr(a[cs[0]], name) || (ts[0].Elem? && KidsMention(ts[0].kids, name));
    }
  }
}
