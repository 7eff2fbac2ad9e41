/**
 * What resolving the placeholders below a node does, stated on tree
 * values. ResolveTree is the reference: every placeholder still attached
 * below the root becomes the text of its value, and the first failure in
 * document order is thrown, a placeholder's own failure before those
 * inside it. ResolveBelow proves that `forEach(replaceVariableWithValue)`
 * over `querySelectorAll('[vl-variable]')` (src/index.ts:99-101 for a
 * clone, src/index.ts:110-112 for the whole tree) computes it, on any part
 * of the store that forms a proper tree.
 */
module Substitution {
  import opened Wrappers
  import opened Errors
  import opened Values
  import opened Tree
  import opened Resolver
  import opened LoopParams

  // ---------------------------------------------------------------------
  // The reference on tree values
  // ---------------------------------------------------------------------

  /** An element carrying `vl-variable`. */
  predicate IsPlaceholder(t: Tree)
  {
    t.Elem? && GetAttr(t.attrs, VariableAttr).Some?
  }

  /** The subtree with every placeholder strictly below its root replaced
      by the text of its value; the root itself is not looked at, as
      `querySelectorAll` does not return the node it is called on. */
  function ResolveTree(t: Tree, ctx: Ctx): (r: Result<Tree>)
    ensures r.Ok? && t.Leaf? ==> r.value == t
    ensures r.Ok? && t.Elem? ==>
      r.value.Elem? && r.value.tag == t.tag && r.value.attrs == t.attrs && |r.value.kids| == |t.kids|
    ensures r.Err? ==> r.error == Validation || r.error.NotDefined?
    decreases t, 1
  {
    match t
    case Leaf(_) => Ok(t)
    case Elem(tag, attrs, kids) =>
      match ResolveKids(kids, ctx)
      case Err(e) => Err(e)
      case Ok(ks) => Ok(Elem(tag, attrs, ks))
  }

  /** The children in order, stopping at the first that fails. */
  function ResolveKids(kids: seq<Tree>, ctx: Ctx): (r: Result<seq<Tree>>)
    ensures r.Ok? ==> |r.value| == |kids|
    ensures r.Err? ==> r.error == Validation || r.error.NotDefined?
    decreases kids, 0
  {
    if kids == [] then Ok([])
    else match ResolveKid(kids[0], ctx)
      case Err(e) => Err(e)
      case Ok(k0) =>
        match ResolveKids(kids[1..], ctx)
        case Err(e) => Err(e)
        case Ok(ks) => Ok([k0] + ks)
  }

  /** One child: a placeholder is checked by its text first, then what lies
      inside it is resolved too (its errors still count, though the result
      is dropped), and it becomes a text leaf; any other child is resolved
      in place. */
  function ResolveKid(t: Tree, ctx: Ctx): (r: Result<Tree>)
    ensures r.Ok? && IsPlaceholder(t) ==>
      TextContent(t) in ctx && r.value == Leaf(Stringify(ctx[TextContent(t)]))
    ensures r.Err? ==> r.error == Validation || r.error.NotDefined?
    decreases t, 2
  {
    if IsPlaceholder(t) then
      var name := TextContent(t);
      if name == "" then Err(Validation)
      else if name !in ctx then Err(NotDefined(Variable, name))
      else match ResolveTree(t, ctx)
        case Err(e) => Err(e)
        case Ok(_) => Ok(Leaf(Stringify(ctx[name])))
    else ResolveTree(t, ctx)
  }

  /** What a loop over items should leave below its parent: the body
      resolved once per value with the iterator bound to it and nothing
      else, stopping at the first value for which that fails. */
  function LoopClones(body: Tree, items: seq<Value>, iteratorVar: string): (r: Result<seq<Tree>>)
    ensures r.Ok? <==> forall k :: 0 <= k < |items| ==> ResolveTree(body, map[iteratorVar := items[k]]).Ok?
    ensures r.Ok? ==> (|r.value| == |items|
      && forall k :: 0 <= k < |items| ==> r.value[k] == ResolveTree(body, map[iteratorVar := items[k]]).value)
    decreases |items|
  {
    if items == [] then Ok([])
    else match ResolveTree(body, map[iteratorVar := items[0]])
      case Err(e) => Err(e)
      case Ok(t) =>
        match LoopClones(body, items[1..], iteratorVar)
        case Err(e) => Err(e)
        case Ok(ts) =>
          assert forall k :: 1 <= k < |items| ==> items[k] == items[1..][k - 1];
          Ok([t] + ts)
  }

  /** A failing loop throws the error of the first value whose clone fails. */
  lemma {:induction false} LoopClonesFirstError(body: Tree, items: seq<Value>, iteratorVar: string)
    requires LoopClones(body, items, iteratorVar).Err?
    ensures exists k :: (0 <= k < |items|
      && (forall i :: 0 <= i < k ==> ResolveTree(body, map[iteratorVar := items[i]]).Ok?)
      && ResolveTree(body, map[iteratorVar := items[k]]) == Err(LoopClones(body, items, iteratorVar).error))
    decreases |items|
  {
    var e := LoopClones(body, items, iteratorVar).error;
    if ResolveTree(body, map[iteratorVar := items[0]]).Err? {
      assert ResolveTree(body, map[iteratorVar := items[0]]) == Err(e);
    } else {
      LoopClonesFirstError(body, items[1..], iteratorVar);
      var k :| 0 <= k < |items[1..]|
        && (forall i :: 0 <= i < k ==> ResolveTree(body, map[iteratorVar := items[1..][i]]).Ok?)
        && ResolveTree(body, map[iteratorVar := items[1..][k]]) == Err(e);
      assert forall i :: 0 <= i < k + 1 ==> ResolveTree(body, map[iteratorVar := items[i]]).Ok? by {
        forall i | 0 <= i < k + 1 ensures ResolveTree(body, map[iteratorVar := items[i]]).Ok? {
          if i > 0 { assert items[i] == items[1..][i - 1]; }
        }
      }
      assert items[k + 1] == items[1..][k];
    }
  }

  /** Once resolved, no placeholder is left below the root. */
  lemma {:induction false} ResolvedHasNoPlaceholders(t: Tree, ctx: Ctx)
    requires ResolveTree(t, ctx).Ok?
    ensures var r := ResolveTree(t, ctx).value; r.Elem? ==> !KidsMention(r.kids, VariableAttr)
    decreases t, 1
  {
    if t.Elem? {
      KidsHaveNoPlaceholders(t.kids, ctx);
    }
  }

  lemma {:induction false} KidsHaveNoPlaceholders(kids: seq<Tree>, ctx: Ctx)
    requires ResolveKids(kids, ctx).Ok?
    ensures !KidsMention(ResolveKids(kids, ctx).value, VariableAttr)
    decreases kids, 0
  {
    if kids != [] {
      var k0 := ResolveKid(kids[0], ctx).value;
      var ks := ResolveKids(kids[1..], ctx).value;
      if !IsPlaceholder(kids[0]) {
        ResolvedHasNoPlaceholders(kids[0], ctx);
      }
      KidsHaveNoPlaceholders(kids[1..], ctx);
      assert ([k0] + ks)[0] == k0 && ([k0] + ks)[1..] == ks;
    }
  }

  /** A tree without placeholders below its root resolves to itself. */
  lemma {:induction false} ResolveWithoutPlaceholders(t: Tree, ctx: Ctx)
    requires t.Elem? ==> !KidsMention(t.kids, VariableAttr)
    ensures ResolveTree(t, ctx) == Ok(t)
    decreases t, 1
  {
    if t.Elem? {
      ResolveKidsWithoutPlaceholders(t.kids, ctx);
    }
  }

  lemma {:induction false} ResolveKidsWithoutPlaceholders(kids: seq<Tree>, ctx: Ctx)
    requires !KidsMention(kids, VariableAttr)
    ensures ResolveKids(kids, ctx) == Ok(kids)
    decreases kids, 0
  {
    if kids != [] {
      ResolveWithoutPlaceholders(kids[0], ctx);
      ResolveKidsWithoutPlaceholders(kids[1..], ctx);
      assert [kids[0]] + kids[1..] == kids;
    }
  }

  // ---------------------------------------------------------------------
  // Parts of the store that form proper trees
  // ---------------------------------------------------------------------

  /** Element i lists distinct children, each of which names i as parent. */
  ghost predicate Owns(a: seq<Node>, i: NodeId)
    requires i < |a| && a[i].Element?
  {
    var cs := a[i].children;
    (forall k :: 0 <= k < |cs| ==> cs[k] < |a| && a[cs[k]].parent == Some(i))
    && forall k1, k2 :: 0 <= k1 < k2 < |cs| ==> cs[k1] != cs[k2]
  }

  /** Every element from c on owns its children: what hangs below them is a
      tree. Clones have this shape and resolving placeholders keeps it. */
  ghost predicate Tidy(a: seq<Node>, c: NodeId)
  {
    forall i {:trigger Owns(a, i)} :: c <= i < |a| && a[i].Element? ==> Owns(a, i)
  }

  /** No node of a has its parent link changed in b. */
  ghost predicate SameParents(a: seq<Node>, b: seq<Node>)
  {
    |a| <= |b| && forall i :: 0 <= i < |a| ==> b[i].parent == a[i].parent
  }

  /** Node j is c or lies below c, following parent links. */
  ghost predicate Below(a: seq<Node>, j: NodeId, c: NodeId)
    decreases j
  {
    j < |a| && (j == c || (c < j && a[j].parent.Some? && a[j].parent.value < j && Below(a, a[j].parent.value, c)))
  }

  /** Node j lies below one of cs. */
  ghost predicate BelowAny(a: seq<Node>, j: NodeId, cs: seq<NodeId>)
    decreases |cs|
  {
    cs != [] && (Below(a, j, cs[0]) || BelowAny(a, j, cs[1..]))
  }

  lemma {:induction false} BelowTrans(a: seq<Node>, j: NodeId, d: NodeId, c: NodeId)
    ensures Below(a, j, d) && Below(a, d, c) ==> Below(a, j, c)
    decreases j
  {
    if Below(a, j, d) && Below(a, d, c) && j != d {
      BelowTrans(a, a[j].parent.value, d, c);
    }
  }

  /** Two nodes above the same node lie one above the other. */
  lemma {:induction false} BelowBoth(a: seq<Node>, j: NodeId, c1: NodeId, c2: NodeId)
    ensures Below(a, j, c1) && Below(a, j, c2) && c1 <= c2 ==> Below(a, c2, c1)
    decreases j
  {
    if Below(a, j, c1) && Below(a, j, c2) && c1 <= c2 && j != c2 {
      BelowBoth(a, a[j].parent.value, c1, c2);
    }
  }

  /** What lies below two different children of n is disjoint. */
  lemma SiblingsApart(a: seq<Node>, n: NodeId, u: NodeId, v: NodeId, j: NodeId)
    requires u != v && n < u < |a| && n < v < |a|
    requires a[u].parent == Some(n) && a[v].parent == Some(n)
    ensures Below(a, j, u) ==> !Below(a, j, v)
  {
    BelowBoth(a, j, u, v);
    BelowBoth(a, j, v, u);
    assert !Below(a, n, u) && !Below(a, n, v);
  }

  lemma {:induction false} ApartFromAll(a: seq<Node>, n: NodeId, u: NodeId, cs: seq<NodeId>, j: NodeId)
    requires n < u < |a| && a[u].parent == Some(n) && u !in cs
    requires forall k :: 0 <= k < |cs| ==> n < cs[k] < |a| && a[cs[k]].parent == Some(n)
    ensures Below(a, j, u) ==> !BelowAny(a, j, cs)
    decreases |cs|
  {
    if cs != [] {
      SiblingsApart(a, n, u, cs[0], j);
      ApartFromAll(a, n, u, cs[1..], j);
    }
  }

  lemma {:induction false} BelowAnyAt(a: seq<Node>, j: NodeId, cs: seq<NodeId>, k: nat)
    ensures k < |cs| && Below(a, j, cs[k]) ==> BelowAny(a, j, cs)
    decreases k
  {
    if 0 < k < |cs| {
      BelowAnyAt(a, j, cs[1..], k - 1);
    }
  }

  lemma {:induction false} BelowAnyAfter(a: seq<Node>, j: NodeId, cs: seq<NodeId>, n: NodeId)
    requires forall k :: 0 <= k < |cs| ==> n < cs[k]
    ensures BelowAny(a, j, cs) ==> n < j
    decreases |cs|
  {
    if cs != [] {
      BelowAnyAfter(a, j, cs[1..], n);
    }
  }

  /** What lies below a child of u lies below u. */
  lemma {:induction false} BelowAnyChildren(a: seq<Node>, j: NodeId, u: NodeId, cs: seq<NodeId>)
    requires u < |a| && forall k :: 0 <= k < |cs| ==> u < cs[k] < |a| && a[cs[k]].parent == Some(u)
    ensures BelowAny(a, j, cs) ==> Below(a, j, u)
    decreases |cs|
  {
    if cs != [] {
      assert Below(a, u, u);
      assert Below(a, cs[0], u);
      BelowTrans(a, j, cs[0], u);
      BelowAnyChildren(a, j, u, cs[1..]);
    }
  }

  lemma {:induction false} BelowFrame(a: seq<Node>, b: seq<Node>, j: NodeId, c: NodeId)
    requires j < |a| && SameParents(a, b)
    ensures Below(b, j, c) == Below(a, j, c)
    decreases j
  {
    if j != c && c < j && a[j].parent.Some? && a[j].parent.value < j {
      BelowFrame(a, b, a[j].parent.value, c);
    }
  }

  lemma {:induction false} BelowAnyFrame(a: seq<Node>, b: seq<Node>, j: NodeId, cs: seq<NodeId>)
    requires j < |a| && SameParents(a, b)
    ensures BelowAny(b, j, cs) == BelowAny(a, j, cs)
    decreases |cs|
  {
    if cs != [] {
      BelowFrame(a, b, j, cs[0]);
      BelowAnyFrame(a, b, j, cs[1..]);
    }
  }

  // ---------------------------------------------------------------------
  // Frames: a proper subtree depends only on the nodes below its root
  // ---------------------------------------------------------------------

  lemma {:induction false} ToTreeBelowFrame(a: seq<Node>, b: seq<Node>, u: NodeId)
    requires WellFormed(a) && WellFormed(b) && u < |a| <= |b| && Tidy(a, u)
    requires forall j :: 0 <= j < |a| && Below(a, j, u) ==> b[j] == a[j]
    ensures ToTree(b, u) == ToTree(a, u)
    decreases |a| - u
  {
    assert Below(a, u, u);
    if a[u].Element? {
      var cs := a[u].children;
      assert ChildrenAfter(a, u) && Owns(a, u);
      forall k | 0 <= k < |cs| ensures ToTree(b, cs[k]) == ToTree(a, cs[k]) {
        var d := cs[k];
        assert Below(a, d, u);
        forall j | 0 <= j < |a| && Below(a, j, d) ensures b[j] == a[j] {
          BelowTrans(a, j, d, u);
        }
        assert Tidy(a, d);
        ToTreeBelowFrame(a, b, d);
      }
    }
  }

  lemma {:induction false} SelectBelowFrame(a: seq<Node>, b: seq<Node>, u: NodeId, name: string)
    requires WellFormed(a) && WellFormed(b) && u < |a| <= |b| && Tidy(a, u)
    requires forall j :: 0 <= j < |a| && Below(a, j, u) ==> b[j] == a[j]
    ensures Select(b, u, name) == Select(a, u, name)
    decreases |a| - u, 1
  {
    assert Below(a, u, u);
    if a[u].Element? {
      var cs := a[u].children;
      assert ChildrenAfter(a, u) && Owns(a, u);
      forall j | 0 <= j < |a| && BelowAny(a, j, cs) ensures b[j] == a[j] {
        BelowAnyChildren(a, j, u, cs);
      }
      SelectKidsBelowFrame(a, b, u, cs, name);
    }
  }

  lemma {:induction false} SelectKidsBelowFrame(a: seq<Node>, b: seq<Node>, n: NodeId, cs: seq<NodeId>, name: string)
    requires WellFormed(a) && WellFormed(b) && n < |a| <= |b| && Tidy(a, n)
    requires forall k :: 0 <= k < |cs| ==> n < cs[k] < |a|
    requires forall j :: 0 <= j < |a| && BelowAny(a, j, cs) ==> b[j] == a[j]
    ensures SelectKids(b, n, cs, name) == SelectKids(a, n, cs, name)
    decreases |a| - n, 0, |cs|
  {
    if cs != [] {
      assert Below(a, cs[0], cs[0]);
      forall j | 0 <= j < |a| && Below(a, j, cs[0]) ensures b[j] == a[j] {
        assert BelowAny(a, j, cs);
      }
      assert Tidy(a, cs[0]);
      SelectBelowFrame(a, b, cs[0], name);
      forall j | 0 <= j < |a| && BelowAny(a, j, cs[1..]) ensures b[j] == a[j] {
        assert BelowAny(a, j, cs);
      }
      SelectKidsBelowFrame(a, b, n, cs[1..], name);
    }
  }

  lemma SubtreesBelowFrame(a: seq<Node>, b: seq<Node>, n: NodeId, cs: seq<NodeId>)
    requires WellFormed(a) && WellFormed(b) && n < |a| <= |b| && Tidy(a, n)
    requires forall k :: 0 <= k < |cs| ==> n < cs[k] < |a|
    requires forall j :: 0 <= j < |a| && BelowAny(a, j, cs) ==> b[j] == a[j]
    ensures Subtrees(b, cs) == Subtrees(a, cs)
  {
    forall k | 0 <= k < |cs| ensures ToTree(b, cs[k]) == ToTree(a, cs[k]) {
      forall j | 0 <= j < |a| && Below(a, j, cs[k]) ensures b[j] == a[j] {
        BelowAnyAt(a, j, cs, k);
      }
      assert Tidy(a, cs[k]);
      ToTreeBelowFrame(a, b, cs[k]);
    }
  }

  // ---------------------------------------------------------------------
  // What replacing placeholders keeps
  // ---------------------------------------------------------------------

  lemma TidyReplace(a: seq<Node>, x: NodeId, s: string, c: NodeId)
    requires WellFormed(a) && 0 < x < |a| && Tidy(a, c)
    ensures Tidy(ReplaceWithText(a, x, s), c) && SameParents(a, ReplaceWithText(a, x, s))
  {
    var b := ReplaceWithText(a, x, s);
    var p := ParentOf(a, x);
    assert SameParents(a, b);
    forall i | c <= i < |b| && b[i].Element? ensures Owns(b, i) {
      assert i < |a|;
      assert ChildrenAfter(a, i) && Owns(a, i);
      var cs := a[i].children;
      if i == p {
        var r := ReplaceFirst(cs, x, |a|);
        forall k | 0 <= k < |r| ensures r[k] < |b| && b[r[k]].parent == Some(p) {
          if r[k] != |a| {
            assert r[k] == cs[k];
          }
        }
      } else {
        forall k | 0 <= k < |cs| ensures b[cs[k]].parent == Some(i) {
          assert a[cs[k]].parent == Some(i);
        }
      }
    }
  }

  lemma {:induction false} ResolveVarsKeeps(a: seq<Node>, xs: seq<NodeId>, ctx: Ctx, c: NodeId)
    requires WellFormed(a) && IdsIn(xs, a) && Tidy(a, c)
    ensures var b := ResolveVars(a, xs, ctx).arena; Tidy(b, c) && SameParents(a, b)
    decreases |xs|
  {
    if xs != [] {
      match ReplaceVariable(a, xs[0], ctx)
      case Err(_) =>
      case Ok(b1) =>
        TidyReplace(a, xs[0], Stringify(ctx[VariableName(a, xs[0])]), c);
        ResolveVarsKeeps(b1, xs[1..], ctx, c);
    }
  }

  /** Resolving two lists is resolving the first, then, if nothing failed,
      the second. */
  lemma {:induction false} ResolveVarsConcat(a: seq<Node>, xs: seq<NodeId>, ys: seq<NodeId>, ctx: Ctx)
    requires WellFormed(a) && IdsIn(xs + ys, a)
    ensures IdsIn(xs, a) && IdsIn(ys, ResolveVars(a, xs, ctx).arena)
    ensures var s := ResolveVars(a, xs, ctx);
      ResolveVars(a, xs + ys, ctx) == if s.err.Some? then s else ResolveVars(s.arena, ys, ctx)
    decreases |xs|
  {
    assert forall i :: 0 <= i < |ys| ==> ys[i] == (xs + ys)[|xs| + i];
    if xs == [] {
      assert xs + ys == ys;
    } else {
      assert (xs + ys)[0] == xs[0] && (xs + ys)[1..] == xs[1..] + ys;
      assert forall i :: 0 <= i < |xs| ==> xs[i] == (xs + ys)[i];
      match ReplaceVariable(a, xs[0], ctx)
      case Err(_) =>
      case Ok(b) =>
        ResolveVarsConcat(b, xs[1..], ys, ctx);
    }
  }

  // ---------------------------------------------------------------------
  // The pass computes the reference
  // ---------------------------------------------------------------------

  /** The first child of n took on the resolved form k0 in f: it, or the
      text that replaced it, sits where it was, and nothing outside n and
      what lies below that child changed. */
  ghost predicate FirstDone(b: seq<Node>, f: seq<Node>, n: NodeId, pre: seq<NodeId>, cs: seq<NodeId>, k0: Tree)
    requires WellFormed(b) && WellFormed(f) && n < |b| <= |f| && cs != []
  {
    f[n].Element? && |f[n].children| == |pre| + |cs|
    && f[n].children == pre + [f[n].children[|pre|]] + cs[1..]
    && f[n].children[|pre|] < |f| && ToTree(f, f[n].children[|pre|]) == k0
    && forall j :: 0 <= j < |b| && j != n && !Below(b, j, cs[0]) ==> f[j] == b[j]
  }

  /** From position off on, the children of n read back as ks. */
  ghost predicate ChildrenRead(f: seq<Node>, n: NodeId, off: nat, ks: seq<Tree>)
    requires WellFormed(f) && n < |f| && f[n].Element? && |f[n].children| == off + |ks|
  {
    ToTree(f, n).kids[off..] == ks
  }

  /** The children cs of n took on the resolved forms ks in f, after the
      children pre that come before them; nothing outside n and what lies
      below cs changed. */
  ghost predicate KidsDone(b: seq<Node>, f: seq<Node>, n: NodeId, pre: seq<NodeId>, cs: seq<NodeId>, ks: seq<Tree>)
    requires WellFormed(b) && WellFormed(f) && n < |b| <= |f|
  {
    f[n].Element? && |f[n].children| == |pre| + |ks| && f[n].children[..|pre|] == pre
    && ChildrenRead(f, n, |pre|, ks)
    && forall j :: 0 <= j < |b| && j != n && !BelowAny(b, j, cs) ==> f[j] == b[j]
  }

  /** Resolving the placeholders strictly below u computes the reference on
      u's subtree: the same error, or the resolved subtree, with nothing
      outside u's subtree changed. */
  lemma {:induction false} ResolveBelow(b: seq<Node>, u: NodeId, ctx: Ctx, t: Tree)
    requires WellFormed(b) && u < |b| && Tidy(b, u) && t == ToTree(b, u)
    ensures var s := ResolveVars(b, Select(b, u, VariableAttr), ctx);
      match ResolveTree(t, ctx)
      case Err(e) => s.err == Some(e)
      case Ok(r) =>
        s.err.None? && ToTree(s.arena, u) == r
        && forall j :: 0 <= j < |b| && !Below(b, j, u) ==> s.arena[j] == b[j]
    decreases t, 1
  {
    if b[u].Element? {
      var cs := b[u].children;
      assert ChildrenAfter(b, u) && Owns(b, u);
      assert Select(b, u, VariableAttr) == SelectKids(b, u, cs, VariableAttr);
      assert t.kids == Subtrees(b, cs);
      KidsBelow(b, u, [], cs, ctx, t.kids);
      var s := ResolveVars(b, Select(b, u, VariableAttr), ctx);
      match ResolveKids(t.kids, ctx)
      case Err(_) =>
      case Ok(ks) =>
        assert Label(s.arena[u]) == Label(b[u]);
        Assembled(b, s.arena, u, ks);
    }
  }

  /** A node whose children all took on their resolved forms. */
  lemma Assembled(b: seq<Node>, f: seq<Node>, u: NodeId, ks: seq<Tree>)
    requires WellFormed(b) && WellFormed(f) && u < |b| <= |f| && b[u].Element? && Tidy(b, u)
    requires Label(f[u]) == Label(b[u]) && KidsDone(b, f, u, [], b[u].children, ks)
    ensures ToTree(f, u) == Elem(b[u].tag, b[u].attrs, ks)
    ensures forall j :: 0 <= j < |b| && !Below(b, j, u) ==> f[j] == b[j]
  {
    var cs := b[u].children;
    assert ChildrenAfter(b, u) && Owns(b, u);
    assert ChildrenAfter(f, u);
    assert ToTree(f, u).kids == ks;
    assert Below(b, u, u);
    forall j | 0 <= j < |b| && !Below(b, j, u) ensures f[j] == b[j] {
      BelowAnyChildren(b, j, u, cs);
    }
  }

  lemma {:induction false} KidsBelow(b: seq<Node>, n: NodeId, pre: seq<NodeId>, cs: seq<NodeId>, ctx: Ctx, ts: seq<Tree>)
    requires WellFormed(b) && n < |b| && b[n].Element? && Tidy(b, n)
    requires b[n].children == pre + cs
    requires forall k :: 0 <= k < |cs| ==> n < cs[k] < |b|
    requires ts == Subtrees(b, cs)
    ensures var s := ResolveVars(b, SelectKids(b, n, cs, VariableAttr), ctx);
      match ResolveKids(ts, ctx)
      case Err(e) => s.err == Some(e)
      case Ok(ks) => s.err.None? && KidsDone(b, s.arena, n, pre, cs, ks)
    decreases ts, 1
  {
    if cs == [] {
      assert pre + cs == pre;
    } else {
      var u := cs[0];
      var first := SelectKids(b, n, [u], VariableAttr);
      var later := SelectKids(b, n, cs[1..], VariableAttr);
      SelectKidsSplit(b, n, cs, VariableAttr);
      ResolveVarsConcat(b, first, later, ctx);
      assert ts[0] == ToTree(b, u);
      FirstKid(b, n, pre, cs, ctx, ts[0]);
      match ResolveKid(ts[0], ctx)
      case Err(_) =>
      case Ok(k0) =>
        var f1 := ResolveVars(b, first, ctx).arena;
        ResolveVarsKeeps(b, first, ctx, n);
        KidsAfterFirst(b, f1, n, pre, cs, ctx, ts, k0);
    }
  }

  /** The rest of the children, once the first is done. */
  lemma {:induction false} KidsAfterFirst(b: seq<Node>, f1: seq<Node>, n: NodeId, pre: seq<NodeId>, cs: seq<NodeId>,
                                         ctx: Ctx, ts: seq<Tree>, k0: Tree)
    requires WellFormed(b) && n < |b| && b[n].Element? && Tidy(b, n)
    requires b[n].children == pre + cs && cs != []
    requires forall k :: 0 <= k < |cs| ==> n < cs[k] < |b|
    requires ts == Subtrees(b, cs) && ResolveKid(ts[0], ctx) == Ok(k0)
    requires WellFormed(f1) && |b| <= |f1| && Tidy(f1, n) && SameParents(b, f1)
    requires FirstDone(b, f1, n, pre, cs, k0)
    ensures var s := ResolveVars(f1, SelectKids(b, n, cs[1..], VariableAttr), ctx);
      match ResolveKids(ts, ctx)
      case Err(e) => s.err == Some(e)
      case Ok(ks) => s.err.None? && KidsDone(b, s.arena, n, pre, cs, ks)
    decreases ts, 0
  {
    var rest := cs[1..];
    var u1 := f1[n].children[|pre|];
    var pre1 := pre + [u1];
    assert f1[n].children == pre1 + rest;
    RestUntouched(b, f1, n, pre, cs, k0);
    SubtreesBelowFrame(b, f1, n, rest);
    SelectKidsBelowFrame(b, f1, n, rest, VariableAttr);
    assert ts[1..] == Subtrees(b, rest);
    KidsBelow(f1, n, pre1, rest, ctx, ts[1..]);
    match ResolveKids(ts[1..], ctx)
    case Err(_) =>
    case Ok(ks1) =>
      var f := ResolveVars(f1, SelectKids(f1, n, rest, VariableAttr), ctx).arena;
      var ks := [k0] + ks1;
      assert ResolveKids(ts, ctx) == Ok(ks);
      KidsDoneStep(b, f1, f, n, pre, cs, k0, ks1);
  }

  /** Resolving the first child leaves the subtrees of its later siblings as they were. */
  lemma RestUntouched(b: seq<Node>, f1: seq<Node>, n: NodeId, pre: seq<NodeId>, cs: seq<NodeId>, k0: Tree)
    requires WellFormed(b) && n < |b| && b[n].Element? && Tidy(b, n)
    requires b[n].children == pre + cs && cs != []
    requires forall k :: 0 <= k < |cs| ==> n < cs[k] < |b|
    requires WellFormed(f1) && |b| <= |f1| && Tidy(f1, n) && SameParents(b, f1)
    requires FirstDone(b, f1, n, pre, cs, k0)
    ensures forall j :: 0 <= j < |b| && BelowAny(b, j, cs[1..]) ==> f1[j] == b[j]
  {
    var u := cs[0];
    var rest := cs[1..];
    assert Owns(b, n);
    assert b[n].children[|pre|] == u;
    assert forall k :: 0 <= k < |rest| ==> b[rest[k]].parent == Some(n) by {
      forall k | 0 <= k < |rest| ensures b[rest[k]].parent == Some(n) {
        assert rest[k] == b[n].children[|pre| + 1 + k];
      }
    }
    assert u !in rest by {
      forall k | 0 <= k < |rest| ensures rest[k] != u {
        assert rest[k] == b[n].children[|pre| + 1 + k];
      }
    }
    forall j | 0 <= j < |b| && BelowAny(b, j, rest) ensures f1[j] == b[j] {
      ApartFromAll(b, n, u, rest, j);
      BelowAnyAfter(b, j, rest, n);
    }
  }

  /** Gluing the first child's result to the others'. */
  lemma KidsDoneStep(b: seq<Node>, f1: seq<Node>, f: seq<Node>, n: NodeId, pre: seq<NodeId>, cs: seq<NodeId>,
                     k0: Tree, ks1: seq<Tree>)
    requires WellFormed(b) && WellFormed(f1) && WellFormed(f) && n < |b| <= |f1| <= |f| && cs != []
    requires forall k :: 0 <= k < |cs| ==> n < cs[k] < |b|
    requires Tidy(f1, n) && SameParents(b, f1)
    requires FirstDone(b, f1, n, pre, cs, k0)
    requires KidsDone(f1, f, n, pre + [f1[n].children[|pre|]], cs[1..], ks1)
    ensures KidsDone(b, f, n, pre, cs, [k0] + ks1)
  {
    var rest := cs[1..];
    var u1 := f1[n].children[|pre|];
    var pre1 := pre + [u1];
    FirstStaysPut(f1, f, n, pre, rest, ks1);
    var ks := [k0] + ks1;
    assert f[n].children[..|pre1|] == pre1;
    assert f[n].children[..|pre|] == pre by {
      assert f[n].children[..|pre|] == f[n].children[..|pre1|][..|pre|];
    }
    assert f[n].children[|pre|] == u1;
    assert ToTree(f, u1) == k0 by {
      assert ToTree(f1, u1) == k0;
    }
    assert |pre1| == |pre| + 1;
    assert ks[0] == k0 && ks[1..] == ks1;
    ChildrenReadCons(f, n, |pre|, ks);
    forall j | 0 <= j < |b| && j != n && !BelowAny(b, j, cs) ensures f[j] == b[j] {
      BelowAnyFrame(b, f1, j, rest);
    }
  }

  lemma ChildrenReadCons(f: seq<Node>, n: NodeId, off: nat, ks: seq<Tree>)
    requires WellFormed(f) && n < |f| && f[n].Element? && |f[n].children| == off + |ks| && ks != []
    requires f[n].children[off] < |f| && ToTree(f, f[n].children[off]) == ks[0]
    requires ChildrenRead(f, n, off + 1, ks[1..])
    ensures ChildrenRead(f, n, off, ks)
  {
    var kids := ToTree(f, n).kids;
    assert kids[off] == ToTree(f, f[n].children[off]);
    assert kids[off..] == [kids[off]] + kids[off + 1..];
    assert ks == [ks[0]] + ks[1..];
  }

  /** Resolving the later children leaves the subtree of the one before
      them as it was. */
  lemma FirstStaysPut(f1: seq<Node>, f: seq<Node>, n: NodeId, pre: seq<NodeId>, rest: seq<NodeId>, ks1: seq<Tree>)
    requires WellFormed(f1) && WellFormed(f) && n < |f1| <= |f| && Tidy(f1, n) && f1[n].Element?
    requires |f1[n].children| == |pre| + 1 + |rest| && f1[n].children == pre + [f1[n].children[|pre|]] + rest
    requires f1[n].children[|pre|] < |f1|
    requires KidsDone(f1, f, n, pre + [f1[n].children[|pre|]], rest, ks1)
    ensures ToTree(f, f1[n].children[|pre|]) == ToTree(f1, f1[n].children[|pre|])
  {
    var u1 := f1[n].children[|pre|];
    var pre1 := pre + [u1];
    assert ChildrenAfter(f1, n) && Owns(f1, n);
    assert f1[u1].parent == Some(n) && n < u1;
    assert forall k :: 0 <= k < |rest| ==> n < rest[k] < |f1| && f1[rest[k]].parent == Some(n) && rest[k] != u1 by {
      forall k | 0 <= k < |rest| ensures n < rest[k] < |f1| && f1[rest[k]].parent == Some(n) && rest[k] != u1 {
        assert rest[k] == f1[n].children[|pre1| + k];
      }
    }
    forall j | 0 <= j < |f1| && Below(f1, j, u1) ensures f[j] == f1[j] {
      ApartFromAll(f1, n, u1, rest, j);
    }
    assert Tidy(f1, u1);
    ToTreeBelowFrame(f1, f, u1);
  }

  /** The query over a list of children is the query below the first,
      the first itself included, then over the others. */
  lemma SelectKidsSplit(a: seq<Node>, n: NodeId, cs: seq<NodeId>, name: string)
    requires WellFormed(a) && n < |a| && cs != []
    requires forall k :: 0 <= k < |cs| ==> n < cs[k] < |a|
    ensures SelectKids(a, n, [cs[0]], name)
      == (if HasAttr(a[cs[0]], name) then [cs[0]] else []) + Select(a, cs[0], name)
    ensures SelectKids(a, n, cs, name) == SelectKids(a, n, [cs[0]], name) + SelectKids(a, n, cs[1..], name)
  {
    assert [cs[0]][1..] == [];
  }

  /** The first child of n: a placeholder is replaced by its text and what
      lies inside it is resolved; any other child is resolved in place. */
  lemma {:induction false} FirstKid(b: seq<Node>, n: NodeId, pre: seq<NodeId>, cs: seq<NodeId>, ctx: Ctx, t: Tree)
    requires WellFormed(b) && n < |b| && b[n].Element? && Tidy(b, n)
    requires b[n].children == pre + cs && cs != []
    requires forall k :: 0 <= k < |cs| ==> n < cs[k] < |b|
    requires t == ToTree(b, cs[0])
    ensures var s := ResolveVars(b, SelectKids(b, n, [cs[0]], VariableAttr), ctx);
      match ResolveKid(t, ctx)
      case Err(e) => s.err == Some(e)
      case Ok(k0) => s.err.None? && FirstDone(b, s.arena, n, pre, cs, k0)
    decreases t, 4
  {
    var u := cs[0];
    SelectKidsSplit(b, n, cs, VariableAttr);
    assert HasAttr(b[u], VariableAttr) <==> IsPlaceholder(t);
    if HasAttr(b[u], VariableAttr) {
      assert SelectKids(b, n, [u], VariableAttr) == [u] + Select(b, u, VariableAttr);
      PlaceholderKid(b, n, pre, cs, ctx, t);
    } else {
      assert SelectKids(b, n, [u], VariableAttr) == Select(b, u, VariableAttr);
      assert ResolveKid(t, ctx) == ResolveTree(t, ctx);
      PlainKid(b, n, pre, cs, ctx, t);
    }
  }

  lemma {:induction false} PlainKid(b: seq<Node>, n: NodeId, pre: seq<NodeId>, cs: seq<NodeId>, ctx: Ctx, t: Tree)
    requires WellFormed(b) && n < |b| && b[n].Element? && Tidy(b, n)
    requires b[n].children == pre + cs && cs != []
    requires forall k :: 0 <= k < |cs| ==> n < cs[k] < |b|
    requires t == ToTree(b, cs[0]) && !IsPlaceholder(t)
    ensures var s := ResolveVars(b, Select(b, cs[0], VariableAttr), ctx);
      match ResolveTree(t, ctx)
      case Err(e) => s.err == Some(e)
      case Ok(k0) => s.err.None? && FirstDone(b, s.arena, n, pre, cs, k0)
    decreases t, 2
  {
    var u := cs[0];
    assert Tidy(b, u);
    ResolveBelow(b, u, ctx, t);
    if ResolveTree(t, ctx).Ok? {
      KeptInPlace(b, ResolveVars(b, Select(b, u, VariableAttr), ctx).arena, n, pre, cs, ResolveTree(t, ctx).value);
    }
  }

  /** A child that only changed below itself is still where it was. */
  lemma KeptInPlace(b: seq<Node>, f: seq<Node>, n: NodeId, pre: seq<NodeId>, cs: seq<NodeId>, r: Tree)
    requires WellFormed(b) && WellFormed(f) && n < |b| <= |f| && b[n].Element?
    requires b[n].children == pre + cs && cs != [] && n < cs[0] < |b|
    requires ToTree(f, cs[0]) == r
    requires forall j :: 0 <= j < |b| && !Below(b, j, cs[0]) ==> f[j] == b[j]
    ensures FirstDone(b, f, n, pre, cs, r)
  {
    var u := cs[0];
    assert !Below(b, n, u);
    assert f[n] == b[n];
    assert b[n].children[|pre|] == u;
    assert cs == [u] + cs[1..];
  }

  lemma {:induction false} PlaceholderKid(b: seq<Node>, n: NodeId, pre: seq<NodeId>, cs: seq<NodeId>, ctx: Ctx, t: Tree)
    requires WellFormed(b) && n < |b| && b[n].Element? && Tidy(b, n)
    requires b[n].children == pre + cs && cs != []
    requires forall k :: 0 <= k < |cs| ==> n < cs[k] < |b|
    requires t == ToTree(b, cs[0]) && IsPlaceholder(t)
    ensures var s := ResolveVars(b, [cs[0]] + Select(b, cs[0], VariableAttr), ctx);
      match ResolveKid(t, ctx)
      case Err(e) => s.err == Some(e)
      case Ok(k0) => s.err.None? && FirstDone(b, s.arena, n, pre, cs, k0)
    decreases t, 3
  {
    var u := cs[0];
    var below := Select(b, u, VariableAttr);
    ResolveVarsConcat(b, [u], below, ctx);
    assert VariableName(b, u) == TextContent(t);
    match ReplaceVariable(b, u, ctx)
    case Err(_) =>
    case Ok(b1) =>
      assert ResolveVars(b, [u], ctx) == Step(b1, None);
      PlaceholderReplaced(b, b1, n, pre, cs, ctx, t);
  }

  /** A placeholder child, once its text replaced it: resolving what lies
      inside the detached placeholder changes nothing that is still
      attached. */
  /** The text node takes the placeholder's slot among n's children, and
      the placeholder's own subtree stays a proper tree. */
  lemma ReplacedSlot(b: seq<Node>, n: NodeId, pre: seq<NodeId>, cs: seq<NodeId>, text: string)
    requires WellFormed(b) && n < |b| && b[n].Element? && Tidy(b, n)
    requires b[n].children == pre + cs && cs != []
    requires forall k :: 0 <= k < |cs| ==> n < cs[k] < |b|
    ensures var b1 := ReplaceWithText(b, cs[0], text);
      ParentOf(b, cs[0]) == n && b1[n].children == pre + [|b|] + cs[1..] && Tidy(b1, cs[0])
  {
    var u := cs[0];
    assert Owns(b, n);
    assert b[n].children[|pre|] == u;
    assert b[u].parent == Some(n);
    assert forall j :: 0 <= j < |pre| ==> (pre + cs)[j] != u by {
      forall j | 0 <= j < |pre| ensures (pre + cs)[j] != u {
        assert (pre + cs)[|pre|] == u;
      }
    }
    ReplaceFirstAt(pre + cs, u, |b|, |pre|);
    SlotUpdate(pre, cs, |b|);
    TidyReplace(b, u, text, n);
  }

  lemma SlotUpdate(pre: seq<NodeId>, cs: seq<NodeId>, y: NodeId)
    requires cs != []
    ensures (pre + cs)[|pre| := y] == pre + [y] + cs[1..]
  {
    assert forall j :: 0 <= j < |pre| + |cs| ==> (pre + cs)[|pre| := y][j] == (pre + [y] + cs[1..])[j];
  }

  lemma PlaceholderReplaced(b: seq<Node>, b1: seq<Node>, n: NodeId, pre: seq<NodeId>, cs: seq<NodeId>, ctx: Ctx, t: Tree)
    requires WellFormed(b) && n < |b| && b[n].Element? && Tidy(b, n)
    requires b[n].children == pre + cs && cs != []
    requires forall k :: 0 <= k < |cs| ==> n < cs[k] < |b|
    requires t == ToTree(b, cs[0]) && IsPlaceholder(t) && TextContent(t) != "" && TextContent(t) in ctx
    requires VariableName(b, cs[0]) == TextContent(t)
    requires b1 == ReplaceWithText(b, cs[0], Stringify(ctx[TextContent(t)]))
    ensures var s := ResolveVars(b1, Select(b, cs[0], VariableAttr), ctx);
      match ResolveKid(t, ctx)
      case Err(e) => s.err == Some(e)
      case Ok(k0) => s.err.None? && FirstDone(b, s.arena, n, pre, cs, k0)
    decreases t, 2
  {
    var u := cs[0];
    var y := |b|;
    var text := Stringify(ctx[TextContent(t)]);
    ReplacedSlot(b, n, pre, cs, text);
    assert b1[n].children == pre + [y] + cs[1..];
    ToTreeFrame(b, b1, u);
    SelectFrame(b, b1, u, VariableAttr);
    ResolveBelow(b1, u, ctx, t);
    match ResolveTree(t, ctx)
    case Err(_) =>
    case Ok(r) =>
      var f := ResolveVars(b1, Select(b1, u, VariableAttr), ctx).arena;
      assert !Below(b1, n, u);
      assert !Below(b1, y, u);
      assert f[n] == b1[n] && f[y] == b1[y];
      assert ToTree(f, y) == Leaf(text);
      forall j | 0 <= j < |b| && j != n && !Below(b, j, u) ensures f[j] == b[j] {
        BelowFrame(b, b1, j, u);
      }
  }

  // ---------------------------------------------------------------------
  // Clones are proper trees
  // ---------------------------------------------------------------------

  lemma {:induction false} GraftTidy(a: seq<Node>, t: Tree, p: NodeId)
    requires WellFormed(a) && p < |a| && a[p].Element?
    ensures Tidy(Graft(a, t, p), |a|)
    decreases t
  {
    GraftCorrect(a, t, p);
    match t
    case Leaf(_) =>
    case Elem(tag, attrs, kids) =>
      var root := |a|;
      var a1 := a + [Element(tag, attrs, [], Some(p))];
      AppendLeafWellFormed(a, a1, p);
      GraftKidsCorrect(a1, kids, root);
      GraftKidsTidy(a1, kids, root);
      var (a2, ids) := GraftKids(a1, kids, root);
      var b := a2[root := Element(tag, attrs, ids, Some(p))];
      assert b == Graft(a, t, p);
      forall i | root <= i < |b| && b[i].Element? ensures Owns(b, i) {
        if i > root {
          assert ChildrenAfter(a2, i) && Owns(a2, i);
        }
      }
  }

  lemma {:induction false} GraftKidsTidy(a: seq<Node>, ts: seq<Tree>, p: NodeId)
    requires WellFormed(a) && p < |a| && a[p].Element?
    ensures var (b, ids) := GraftKids(a, ts, p);
      Tidy(b, |a|) && forall k1, k2 :: 0 <= k1 < k2 < |ids| ==> ids[k1] < ids[k2]
    decreases ts
  {
    if ts != [] {
      var a1 := Graft(a, ts[0], p);
      GraftCorrect(a, ts[0], p);
      GraftTidy(a, ts[0], p);
      assert a1[p] == a[p] by { assert a1[..|a|][p] == a[p]; }
      GraftKidsTidy(a1, ts[1..], p);
      GraftKidsCorrect(a1, ts[1..], p);
      var (a2, ids) := GraftKids(a1, ts[1..], p);
      assert forall j :: 0 <= j < |a1| ==> a2[j] == a1[j] by {
        forall j | 0 <= j < |a1| ensures a2[j] == a1[j] { assert a2[..|a1|][j] == a2[j]; }
      }
      forall i | |a| <= i < |a1| && a2[i].Element? ensures Owns(a2, i) {
        OwnsKept(a1, a2, i);
      }
      assert Tidy(a2, |a1|);
      var all := [|a|] + ids;
      assert GraftKids(a, ts, p) == (a2, all);
    }
  }

  /** Appending nodes below an element leaves what it owns untouched. */
  lemma OwnsKept(a1: seq<Node>, a2: seq<Node>, i: NodeId)
    requires WellFormed(a1) && i < |a1| <= |a2| && a1[i].Element? && Owns(a1, i)
    requires forall j :: 0 <= j < |a1| ==> a2[j] == a1[j]
    ensures Owns(a2, i)
  {
    assert a2[i] == a1[i];
  }

  lemma CloneTidy(a: seq<Node>, x: NodeId, p: NodeId)
    requires WellFormed(a) && x < |a| && p < |a| && a[p].Element?
    ensures Tidy(Clone(a, x, p), |a|)
  {
    GraftTidy(a, ToTree(a, x), p);
  }

  /** The store the parser builds is a proper tree. */
  lemma BuildTidy(ts: seq<Tree>)
    ensures WellFormed(Build(ts)) && Tidy(Build(ts), 0)
  {
    BuildCorrect(ts);
    var a0 := [Element("", [], [], None)];
    assert ChildrenAfter(a0, 0) && ParentBefore(a0, 0);
    GraftKidsCorrect(a0, ts, 0);
    GraftKidsTidy(a0, ts, 0);
    var (a1, ids) := GraftKids(a0, ts, 0);
    var b := Build(ts);
    assert b == a1[0 := Element("", [], ids, None)];
    forall i | 0 <= i < |b| && b[i].Element? ensures Owns(b, i) {
      if i > 0 { assert Owns(a1, i); }
    }
  }

  // ---------------------------------------------------------------------
  // What the loop pass keeps (src/index.ts:87-108)
  // ---------------------------------------------------------------------

  /** Changing attributes leaves every link as it was. */
  lemma SetAttrsTidy(a: seq<Node>, x: NodeId, attrs: seq<Attr>)
    requires WellFormed(a) && x < |a| && a[x].Element? && Tidy(a, 0)
    ensures Tidy(SetAttrs(a, x, attrs), 0)
  {
    var b := SetAttrs(a, x, attrs);
    forall i | 0 <= i < |b| && b[i].Element? ensures Owns(b, i) {
      assert Owns(a, i) && ChildrenAfter(a, i);
    }
  }

  /** `innerHTML = ''` detaches the children and links nothing new. */
  lemma ClearTidy(a: seq<Node>, p: NodeId)
    requires WellFormed(a) && p < |a| && a[p].Element? && Tidy(a, 0)
    ensures Tidy(ClearChildren(a, p), 0)
  {
    var b := ClearChildren(a, p);
    forall i | 0 <= i < |b| && b[i].Element? && i != p ensures Owns(b, i) {
      assert Owns(a, i) && ChildrenAfter(a, i);
    }
  }

  /** A clone's fresh nodes form a proper tree and the old ones are kept. */
  lemma CloneKeepsTidy(a: seq<Node>, x: NodeId, p: NodeId)
    requires WellFormed(a) && x < |a| && p < |a| && a[p].Element? && Tidy(a, 0)
    ensures Tidy(Clone(a, x, p), 0)
  {
    var b := Clone(a, x, p);
    CloneTidy(a, x, p);
    assert forall j :: 0 <= j < |a| ==> b[j] == a[j] by {
      forall j | 0 <= j < |a| ensures b[j] == a[j] { assert b[..|a|][j] == b[j]; }
    }
    forall i | 0 <= i < |a| && b[i].Element? ensures Owns(b, i) {
      OwnsKept(a, b, i);
    }
  }

  /** Replacing placeholders only ever puts fresh nodes among p's children,
      so a node stored before that is not a child of p does not become one. */
  lemma {:induction false} ResolveVarsAvoids(a: seq<Node>, xs: seq<NodeId>, ctx: Ctx, p: NodeId, v: NodeId)
    requires WellFormed(a) && IdsIn(xs, a) && p < |a| && a[p].Element? && v < |a| && v !in a[p].children
    ensures var b := ResolveVars(a, xs, ctx).arena; p < |b| && b[p].Element? && v !in b[p].children
    decreases |xs|
  {
    if xs != [] {
      match ReplaceVariable(a, xs[0], ctx)
      case Err(_) =>
      case Ok(b1) =>
        var q := ParentOf(a, xs[0]);
        assert b1 == ReplaceWithText(a, xs[0], Stringify(ctx[VariableName(a, xs[0])]));
        assert b1[p].Element? && v !in b1[p].children by {
          if p == q {
            var cs := a[p].children;
            forall k | 0 <= k < |b1[p].children| ensures b1[p].children[k] != v {
              assert b1[p].children[k] == cs[k] || b1[p].children[k] == |a|;
            }
          }
        }
        ResolveVarsAvoids(b1, xs[1..], ctx, p, v);
    }
  }

  /** `appendChild` of a node whose parent link already names p, and which
      p does not list yet, keeps the tree proper. */
  lemma AppendTidy(a: seq<Node>, p: NodeId, c: NodeId)
    requires WellFormed(a) && p < c < |a| && a[p].Element? && Tidy(a, 0)
    requires a[c].parent == Some(p) && c !in a[p].children
    ensures Tidy(AppendChild(a, p, c), 0)
  {
    var b := AppendChild(a, p, c);
    assert forall j :: 0 <= j < |a| ==> b[j].parent == a[j].parent;
    forall i | 0 <= i < |b| && b[i].Element? ensures Owns(b, i) {
      assert Owns(a, i) && ChildrenAfter(a, i);
      if i == p {
        var cs := a[p].children;
        assert b[p].children == cs + [c];
        forall k | 0 <= k < |cs| + 1 ensures (cs + [c])[k] < |b| && b[(cs + [c])[k]].parent == Some(p) {
          if k < |cs| { assert (cs + [c])[k] == cs[k]; }
        }
      } else {
        assert b[i].children == a[i].children;
      }
    }
  }

  /** One turn of the loop keeps the tree proper, whether it fails or not. */
  lemma AddCloneTidy(a: seq<Node>, x: NodeId, p: NodeId, value: Value, iteratorVar: string)
    requires WellFormed(a) && p < x < |a| && a[p].Element? && Tidy(a, 0)
    ensures Tidy(AddClone(a, x, p, value, iteratorVar).arena, 0)
  {
    var c := |a|;
    var a1 := Clone(a, x, p);
    CloneKeepsTidy(a, x, p);
    assert a1[p] == a[p] by { assert a1[..|a|][p] == a[p]; }
    assert c !in a1[p].children by { assert ChildrenAfter(a, p); }
    var ctx := map[iteratorVar := value];
    var xs := Select(a1, c, VariableAttr);
    ResolveVarsKeeps(a1, xs, ctx, 0);
    ResolveVarsAvoids(a1, xs, ctx, p, c);
    var s := ResolveVars(a1, xs, ctx);
    if s.err.None? {
      AppendTidy(s.arena, p, c);
    }
  }

  lemma {:induction false} ExpandClonesTidy(a: seq<Node>, x: NodeId, p: NodeId, items: seq<Value>, iteratorVar: string)
    requires WellFormed(a) && p < x < |a| && a[p].Element? && Tidy(a, 0)
    ensures Tidy(ExpandClones(a, x, p, items, iteratorVar).arena, 0)
    decreases |items|
  {
    if items != [] {
      AddCloneTidy(a, x, p, items[0], iteratorVar);
      var s := AddClone(a, x, p, items[0], iteratorVar);
      if s.err.None? {
        assert s.arena[p].Element?;
        ExpandClonesTidy(s.arena, x, p, items[1..], iteratorVar);
      }
    }
  }

  /** `handleLoop` keeps the tree proper, whether it fails or not. */
  lemma HandleLoopTidy(a: seq<Node>, x: NodeId, ctx: Ctx)
    requires WellFormed(a) && 0 < x < |a| && Tidy(a, 0)
    ensures Tidy(HandleLoop(a, x, ctx).arena, 0)
  {
    match ParseLoop(ForParamsOf(a[x]), ctx)
    case Err(_) =>
    case Ok(Loop(items, iteratorVar)) =>
      assert a[x].Element?;
      var a1 := SetAttrs(a, x, RemoveAttr(a[x].attrs, ForAttr));
      SetAttrsTidy(a, x, RemoveAttr(a[x].attrs, ForAttr));
      var p := ParentOf(a1, x);
      ClearTidy(a1, p);
      ExpandClonesTidy(ClearChildren(a1, p), x, p, items, iteratorVar);
  }

  /** The loop pass of `compile` leaves a proper tree, so the placeholder
      pass after it computes the reference (`VariablePassResolves`). */
  lemma {:induction false} LoopPassKeepsTidy(a: seq<Node>, loops: seq<NodeId>, ctx: Ctx)
    requires WellFormed(a) && IdsIn(loops, a) && Tidy(a, 0)
    ensures Tidy(LoopPass(a, loops, ctx).arena, 0)
    decreases |loops|
  {
    if loops != [] {
      HandleLoopTidy(a, loops[0], ctx);
      var s := HandleLoop(a, loops[0], ctx);
      if s.err.None? {
        LoopPassKeepsTidy(s.arena, loops[1..], ctx);
      }
    }
  }

  /** On a proper tree, the variable pass of `compile` computes the
      reference: the reference's error, or the resolved tree. */
  lemma VariablePassResolves(a: seq<Node>, ctx: Ctx)
    requires WellFormed(a) && Tidy(a, 0)
    ensures var s := VariablePass(a, ctx);
      match ResolveTree(ToTree(a, 0), ctx)
      case Err(e) => s.err == Some(e)
      case Ok(t) => s.err.None? && ToTree(s.arena, 0) == t
  {
    ResolveBelow(a, 0, ctx, ToTree(a, 0));
  }
}
