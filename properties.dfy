/**
 * What the passes of `compile` achieve, stated on the tree: a placeholder's
 * place among its parent's children, the children a loop leaves, the
 * attributes a bound node ends with, and the output for markup without
 * directives.
 */
module Properties {
  import opened Wrappers
  import opened Errors
  import opened Values
  import opened LoopParams
  import opened Tree
  import opened Resolver
  import opened Substitution

  // ---------------------------------------------------------------------
  // Placeholders (src/index.ts:48-62)
  // ---------------------------------------------------------------------

  /** The three outcomes of `replaceVariableWithValue`, decided by the
      placeholder's text alone. */
  lemma ReplaceVariableOutcomes(a: seq<Node>, x: NodeId, ctx: Ctx)
    requires WellFormed(a) && 0 < x < |a|
    ensures ReplaceVariable(a, x, ctx) == Err(Validation) <==> VariableName(a, x) == ""
    ensures ReplaceVariable(a, x, ctx) == Err(NotDefined(Variable, VariableName(a, x)))
        <==> VariableName(a, x) != "" && VariableName(a, x) !in ctx
    ensures ReplaceVariable(a, x, ctx).Ok? <==> VariableName(a, x) != "" && VariableName(a, x) in ctx
  {
  }

  /** Seen from the placeholder's parent, the placeholder's subtree becomes
      one text leaf holding the value, at the same position, and every other
      child keeps its subtree. */
  lemma ReplaceVariableRewritesParent(a: seq<Node>, x: NodeId, ctx: Ctx, k: nat)
    requires WellFormed(a) && 0 < x < |a|
    requires VariableName(a, x) in ctx && VariableName(a, x) != ""
    requires var p := ParentOf(a, x); k < |a[p].children| && a[p].children[k] == x && forall j :: 0 <= j < k ==> a[p].children[j] != x
    ensures ReplaceVariable(a, x, ctx).Ok?
    ensures var p := ParentOf(a, x); var t := ToTree(a, p);
      t.Elem? && k < |t.kids|
      && ToTree(ReplaceVariable(a, x, ctx).value, p)
         == t.(kids := t.kids[k := Leaf(Stringify(ctx[VariableName(a, x)]))])
  {
    var p := ParentOf(a, x);
    var s := Stringify(ctx[VariableName(a, x)]);
    var b := ReplaceWithText(a, x, s);
    var cs := a[p].children;
    ReplaceFirstAt(cs, x, |a|, k);
    assert b[p].children == cs[k := |a|];
    assert ChildrenAfter(a, p);
    forall i | 0 <= i < |cs| && i != k ensures ToTree(b, cs[i]) == ToTree(a, cs[i]) {
      ToTreeFrame(a, b, cs[i]);
    }
    assert ToTree(b, |a|) == Leaf(s);
  }

  // ---------------------------------------------------------------------
  // Attribute bindings (src/index.ts:114-134)
  // ---------------------------------------------------------------------

  /** The error a binding attribute raises on its own, if any. */
  function DirectiveError(at: Attr, ctx: Ctx): (r: Option<Error>)
    ensures r.Some? ==> IsDirective(at.name)
    ensures IsDirective(at.name) ==> (r == Some(EmptyAttribute(at.name[3..])) <==> at.value == "")
    ensures IsDirective(at.name) ==>
      (r == Some(NotDefined(AttributeInitializer, at.value)) <==> at.value != "" && at.value !in ctx)
  {
    if !IsDirective(at.name) then None
    else if at.value == "" then Some(EmptyAttribute(at.name[3..]))
    else if at.value !in ctx then Some(NotDefined(AttributeInitializer, at.value))
    else None
  }

  /** The bindings succeed exactly when no binding attribute raises an error. */
  lemma {:induction false} BindAttrsSucceedsIff(snapshot: seq<Attr>, current: seq<Attr>, ctx: Ctx)
    ensures BindAttrs(snapshot, current, ctx).err.None?
        <==> forall i :: 0 <= i < |snapshot| ==> DirectiveError(snapshot[i], ctx).None?
    decreases |snapshot|
  {
    if snapshot != [] {
      var at := snapshot[0];
      var next := if IsDirective(at.name) && at.value != "" && at.value in ctx
        then RemoveAttr(SetAttr(current, at.name[3..], Stringify(ctx[at.value])), at.name)
        else current;
      BindAttrsSucceedsIff(snapshot[1..], next, ctx);
      assert forall i :: 1 <= i < |snapshot| ==> snapshot[i] == snapshot[1..][i - 1];
    }
  }

  /** The error raised is the one of the first binding attribute in the
      list that has one. */
  lemma {:induction false} BindAttrsFirstError(snapshot: seq<Attr>, current: seq<Attr>, ctx: Ctx, k: nat)
    requires k < |snapshot| && DirectiveError(snapshot[k], ctx).Some?
    requires forall i :: 0 <= i < k ==> DirectiveError(snapshot[i], ctx).None?
    ensures BindAttrs(snapshot, current, ctx).err == DirectiveError(snapshot[k], ctx)
    decreases |snapshot|
  {
    if k > 0 {
      var at := snapshot[0];
      assert DirectiveError(at, ctx).None?;
      var next := if IsDirective(at.name)
        then RemoveAttr(SetAttr(current, at.name[3..], Stringify(ctx[at.value])), at.name)
        else current;
      assert snapshot[1..][k - 1] == snapshot[k];
      BindAttrsFirstError(snapshot[1..], next, ctx, k - 1);
    }
  }

  predicate StartsDirective(name: string)
  {
    |name| >= 3 && name[..3] == DirectivePrefix
  }

  /** No binding attribute of the list names a target that itself starts
      with `vl-`. */
  ghost predicate PlainTargets(snapshot: seq<Attr>)
  {
    forall i :: 0 <= i < |snapshot| && IsDirective(snapshot[i].name) ==> !StartsDirective(snapshot[i].name[3..])
  }

  /** The value the last binding attribute for `target` names, if any. */
  function LastBinding(snapshot: seq<Attr>, target: string): (r: Option<string>)
    ensures r.Some? ==> exists i ::
      0 <= i < |snapshot| && IsDirective(snapshot[i].name) && snapshot[i].name[3..] == target && snapshot[i].value == r.value
      && forall j :: i < j < |snapshot| && IsDirective(snapshot[j].name) ==> snapshot[j].name[3..] != target
    ensures r.None? <==> forall i :: 0 <= i < |snapshot| && IsDirective(snapshot[i].name) ==> snapshot[i].name[3..] != target
  {
    if snapshot == [] then None
    else
      var rest := LastBinding(snapshot[1..], target);
      assert forall i :: 1 <= i < |snapshot| ==> snapshot[i] == snapshot[1..][i - 1];
      if rest.Some? then rest
      else if IsDirective(snapshot[0].name) && snapshot[0].name[3..] == target then Some(snapshot[0].value)
      else None
  }

  /** The binding attribute with exactly this name occurs in the list. */
  ghost predicate DirectiveIn(snapshot: seq<Attr>, name: string)
  {
    IsDirective(name) && exists i :: 0 <= i < |snapshot| && snapshot[i].name == name
  }

  /** After successful bindings, a binding attribute is gone, a target holds
      the text of the value its last binding names, and every other
      attribute is as before. */
  lemma {:induction false} BindAttrsResult(snapshot: seq<Attr>, current: seq<Attr>, ctx: Ctx, name: string)
    requires forall i :: 0 <= i < |snapshot| && IsDirective(snapshot[i].name) ==>
      snapshot[i].value != "" && snapshot[i].value in ctx
    requires PlainTargets(snapshot)
    ensures GetAttr(BindAttrs(snapshot, current, ctx).attrs, name)
      == if DirectiveIn(snapshot, name) then None
         else match LastBinding(snapshot, name)
           case Some(v) => Some(Stringify(ctx[v]))
           case None => GetAttr(current, name)
    decreases |snapshot|
  {
    if snapshot != [] {
      var at := snapshot[0];
      assert forall i :: 1 <= i < |snapshot| ==> snapshot[i] == snapshot[1..][i - 1];
      assert DirectiveIn(snapshot, name) <==> (IsDirective(at.name) && at.name == name) || DirectiveIn(snapshot[1..], name);
      if !IsDirective(at.name) {
        BindAttrsResult(snapshot[1..], current, ctx, name);
      } else {
        var next := RemoveAttr(SetAttr(current, at.name[3..], Stringify(ctx[at.value])), at.name);
        BindAttrsResult(snapshot[1..], next, ctx, name);
        GetAttrAfterRemove(SetAttr(current, at.name[3..], Stringify(ctx[at.value])), at.name, name);
        GetAttrAfterSet(current, at.name[3..], Stringify(ctx[at.value]), name);
        if name == at.name {
          assert StartsDirective(name);
          assert !StartsDirective(at.name[3..]);
          assert LastBinding(snapshot[1..], name).None?;
        }
      }
    }
  }

  /** The attributes of a bound node: bindings resolved as above and the
      marker gone; no other node changes. */
  lemma BindNodeResult(a: seq<Node>, x: NodeId, ctx: Ctx, name: string)
    requires WellFormed(a) && x < |a| && a[x].Element?
    requires forall i :: 0 <= i < |a[x].attrs| && IsDirective(a[x].attrs[i].name) ==>
      a[x].attrs[i].value != "" && a[x].attrs[i].value in ctx
    requires PlainTargets(a[x].attrs)
    ensures var r := BindNode(a, x, ctx);
      r.err.None? && r.arena[x].Element? && r.arena[x].tag == a[x].tag && r.arena[x].children == a[x].children
      && (forall j :: 0 <= j < |a| && j != x ==> r.arena[j] == a[j])
      && GetAttr(r.arena[x].attrs, name)
         == if name == MarkerAttr || DirectiveIn(a[x].attrs, name) then None
            else match LastBinding(a[x].attrs, name)
              case Some(v) => Some(Stringify(ctx[v]))
              case None => GetAttr(a[x].attrs, name)
  {
    var snapshot := a[x].attrs;
    BindAttrsSucceedsIff(snapshot, snapshot, ctx);
    BindAttrsResult(snapshot, snapshot, ctx, name);
    GetAttrAfterRemove(BindAttrs(snapshot, snapshot, ctx).attrs, MarkerAttr, name);
  }

  /** After successful bindings no attribute of the node starts with `vl-`. */
  lemma BindNodeClearsDirectives(a: seq<Node>, x: NodeId, ctx: Ctx)
    requires WellFormed(a) && x < |a| && a[x].Element?
    requires forall i :: 0 <= i < |a[x].attrs| && IsDirective(a[x].attrs[i].name) ==>
      a[x].attrs[i].value != "" && a[x].attrs[i].value in ctx
    requires PlainTargets(a[x].attrs)
    ensures var r := BindNode(a, x, ctx);
      r.arena[x].Element? && forall at :: at in r.arena[x].attrs ==> !StartsDirective(at.name)
  {
    var r := BindNode(a, x, ctx);
    BindNodeResult(a, x, ctx, MarkerAttr);
    forall at | at in r.arena[x].attrs ensures !StartsDirective(at.name) {
      var name := at.name;
      BindNodeResult(a, x, ctx, name);
      assert GetAttr(r.arena[x].attrs, name).Some?;
    }
  }

  /** A failing binding raises the error of the first binding attribute
      that has one. */
  lemma BindNodeFirstError(a: seq<Node>, x: NodeId, ctx: Ctx, k: nat)
    requires WellFormed(a) && x < |a| && a[x].Element?
    requires k < |a[x].attrs| && DirectiveError(a[x].attrs[k], ctx).Some?
    requires forall i :: 0 <= i < k ==> DirectiveError(a[x].attrs[i], ctx).None?
    ensures BindNode(a, x, ctx).err == DirectiveError(a[x].attrs[k], ctx)
  {
    BindAttrsFirstError(a[x].attrs, a[x].attrs, ctx, k);
  }

  // ---------------------------------------------------------------------
  // Loops (src/index.ts:87-105)
  // ---------------------------------------------------------------------

  /** Resolving placeholders inside a clone rooted at c changes no node
      stored before c and keeps every later node below c. */
  lemma {:induction false} ResolveVarsInside(a: seq<Node>, xs: seq<NodeId>, ctx: Ctx, c: NodeId)
    requires WellFormed(a) && InsideFrom(a, c)
    requires forall i :: 0 <= i < |xs| ==> c < xs[i] < |a|
    ensures var b := ResolveVars(a, xs, ctx).arena;
      InsideFrom(b, c) && forall j :: 0 <= j < c ==> b[j] == a[j]
    decreases |xs|
  {
    if xs != [] {
      var y := xs[0];
      match ReplaceVariable(a, y, ctx)
      case Err(_) =>
      case Ok(b1) =>
        var q := ParentOf(a, y);
        assert c <= q;
        assert b1 == ReplaceWithText(a, y, Stringify(ctx[VariableName(a, y)]));
        forall j | c < j < |b1| ensures b1[j].parent.Some? && c <= b1[j].parent.value {
          if j < |a| { assert b1[j].parent == a[j].parent; }
        }
        ResolveVarsInside(b1, xs[1..], ctx, c);
    }
  }

  /** Node c of b is a clone of x of a attached below p. */
  ghost predicate CloneOf(a: seq<Node>, b: seq<Node>, x: NodeId, p: NodeId, c: NodeId)
    requires x < |a|
  {
    |a| <= c < |b| && b[c].parent == Some(p) && Label(b[c]) == Label(a[x])
  }

  /** One turn of the loop: the new clone is appended to p and no earlier
      node other than p changes. */
  lemma AddCloneShape(a: seq<Node>, x: NodeId, p: NodeId, value: Value, iteratorVar: string)
    requires WellFormed(a) && p < x < |a| && a[p].Element?
    requires AddClone(a, x, p, value, iteratorVar).err.None?
    ensures var b := AddClone(a, x, p, value, iteratorVar).arena;
      b[p].Element? && b[p].children == a[p].children + [|a|] && CloneOf(a, b, x, p, |a|)
      && forall j :: 0 <= j < |a| && j != p ==> b[j] == a[j]
  {
    var c := |a|;
    var a1 := Clone(a, x, p);
    var xs := Select(a1, c, VariableAttr);
    ResolveVarsInside(a1, xs, map[iteratorVar := value], c);
    var s := ResolveVars(a1, xs, map[iteratorVar := value]);
    assert forall j :: 0 <= j < |a| ==> s.arena[j] == a[j] by {
      forall j | 0 <= j < |a| ensures s.arena[j] == a[j] { assert a1[j] == a1[..|a|][j]; }
    }
    LabelOfTree(a1, c, a, x);
    assert Label(s.arena[c]) == Label(a1[c]);
  }

  /** b is a after m clones of x were appended to p: p keeps its children
      and gains m clones, in increasing store order, and no node of a other
      than p changes. */
  ghost predicate Expanded(a: seq<Node>, b: seq<Node>, x: NodeId, p: NodeId, m: nat)
    requires p < x < |a| <= |b| && a[p].Element?
  {
    var n := |a[p].children|;
    b[p].Element? && |b[p].children| == n + m && b[p].children[..n] == a[p].children
    && (forall k :: n <= k < |b[p].children| ==> CloneOf(a, b, x, p, b[p].children[k]))
    && (forall k1, k2 :: n <= k1 < k2 < |b[p].children| ==> b[p].children[k1] < b[p].children[k2])
    && forall j :: 0 <= j < |a| && j != p ==> b[j] == a[j]
  }

  /** The whole loop: p keeps its children and gains one clone per value. */
  lemma {:induction false} ExpandClonesShape(a: seq<Node>, x: NodeId, p: NodeId, items: seq<Value>, iteratorVar: string)
    requires WellFormed(a) && p < x < |a| && a[p].Element?
    requires ExpandClones(a, x, p, items, iteratorVar).err.None?
    ensures Expanded(a, ExpandClones(a, x, p, items, iteratorVar).arena, x, p, |items|)
    decreases |items|
  {
    if items != [] {
      var a3 := AddClone(a, x, p, items[0], iteratorVar).arena;
      AddCloneShape(a, x, p, items[0], iteratorVar);
      ExpandClonesShape(a3, x, p, items[1..], iteratorVar);
      var b := ExpandClones(a3, x, p, items[1..], iteratorVar).arena;
      ExpandedStep(a, a3, b, x, p, |items| - 1);
    }
    else {
      assert a[p].children[..|a[p].children|] == a[p].children;
    }
  }

  /** One clone followed by m more is m + 1 clones. */
  lemma ExpandedStep(a: seq<Node>, a3: seq<Node>, b: seq<Node>, x: NodeId, p: NodeId, m: nat)
    requires p < x < |a| < |a3| <= |b| && a[p].Element?
    requires a3[p].Element? && a3[p].children == a[p].children + [|a|] && CloneOf(a, a3, x, p, |a|)
    requires forall j :: 0 <= j < |a| && j != p ==> a3[j] == a[j]
    requires Expanded(a3, b, x, p, m)
    ensures Expanded(a, b, x, p, m + 1)
  {
    var n := |a[p].children|;
    var cs := b[p].children;
    assert cs[..n + 1] == a[p].children + [|a|];
    assert cs[..n] == cs[..n + 1][..n];
    assert cs[n] == |a| && b[|a|] == a3[|a|];
    assert a3[x] == a[x];
  }

  /** A turn of the loop over a body without placeholders cannot fail and
      appends an exact copy of the body; the body itself is untouched. */
  lemma AddCloneCopies(a: seq<Node>, x: NodeId, p: NodeId, value: Value, iteratorVar: string)
    requires WellFormed(a) && p < x < |a| && a[p].Element? && Select(a, x, VariableAttr) == []
    ensures var r := AddClone(a, x, p, value, iteratorVar);
      r.err.None? && |a| < |r.arena| && ToTree(r.arena, |a|) == ToTree(a, x)
      && ToTree(r.arena, x) == ToTree(a, x) && Select(r.arena, x, VariableAttr) == []
  {
    var c := |a|;
    var a1 := Clone(a, x, p);
    SelectEmptyIff(a, x, VariableAttr);
    SelectEmptyIff(a1, c, VariableAttr);
    assert Select(a1, c, VariableAttr) == [];
    var a3 := AppendChild(a1, p, c);
    assert AddClone(a, x, p, value, iteratorVar) == Step(a3, None);
    assert a3[c] == a1[c];
    ToTreeFrame(a1, a3, c);
    assert forall j :: x <= j < |a| ==> a3[j] == a[j] by {
      forall j | x <= j < |a| ensures a3[j] == a[j] { assert a1[j] == a1[..|a|][j]; }
    }
    ToTreeFrame(a, a3, x);
    SelectFrame(a, a3, x, VariableAttr);
  }

  /** Every child b gave p after those p has in a is a copy of x's subtree in a. */
  ghost predicate CopiesBody(a: seq<Node>, b: seq<Node>, x: NodeId, p: NodeId)
    requires WellFormed(a) && WellFormed(b) && p < x < |a| && p < |b| && a[p].Element? && b[p].Element?
  {
    forall k :: |a[p].children| <= k < |b[p].children| ==>
      b[p].children[k] < |b| && ToTree(b, b[p].children[k]) == ToTree(a, x)
  }

  /** A loop over a body without placeholders cannot fail, and every clone
      it appends is an exact copy of the body. */
  lemma {:induction false} ExpandClonesCopies(a: seq<Node>, x: NodeId, p: NodeId, items: seq<Value>, iteratorVar: string)
    requires WellFormed(a) && p < x < |a| && a[p].Element? && Select(a, x, VariableAttr) == []
    ensures ExpandClones(a, x, p, items, iteratorVar).err.None?
    ensures var b := ExpandClones(a, x, p, items, iteratorVar).arena;
      Expanded(a, b, x, p, |items|) && CopiesBody(a, b, x, p)
    decreases |items|
  {
    ExpandClonesCopiesErr(a, x, p, items, iteratorVar);
    ExpandClonesShape(a, x, p, items, iteratorVar);
    if items != [] {
      var a3 := AddClone(a, x, p, items[0], iteratorVar).arena;
      AddCloneCopies(a, x, p, items[0], iteratorVar);
      AddCloneShape(a, x, p, items[0], iteratorVar);
      ExpandClonesCopies(a3, x, p, items[1..], iteratorVar);
      var b := ExpandClones(a3, x, p, items[1..], iteratorVar).arena;
      assert b == ExpandClones(a, x, p, items, iteratorVar).arena;
      CopiesStep(a, a3, b, x, p, |items| - 1);
    }
  }

  lemma CopiesStep(a: seq<Node>, a3: seq<Node>, b: seq<Node>, x: NodeId, p: NodeId, m: nat)
    requires WellFormed(a) && WellFormed(a3) && WellFormed(b)
    requires p < x < |a| < |a3| <= |b| && a[p].Element? && a3[p].Element?
    requires a3[p].children == a[p].children + [|a|]
    requires ToTree(a3, |a|) == ToTree(a, x) && ToTree(a3, x) == ToTree(a, x)
    requires Expanded(a3, b, x, p, m) && CopiesBody(a3, b, x, p)
    ensures CopiesBody(a, b, x, p)
  {
    var c := |a|;
    var n := |a[p].children|;
    ToTreeFrame(a3, b, c);
    assert b[p].children[..n + 1] == a3[p].children;
    assert b[p].children[n] == c;
  }

  lemma {:induction false} ExpandClonesCopiesErr(a: seq<Node>, x: NodeId, p: NodeId, items: seq<Value>, iteratorVar: string)
    requires WellFormed(a) && p < x < |a| && a[p].Element? && Select(a, x, VariableAttr) == []
    ensures ExpandClones(a, x, p, items, iteratorVar).err.None?
    decreases |items|
  {
    if items != [] {
      AddCloneCopies(a, x, p, items[0], iteratorVar);
      ExpandClonesCopiesErr(AddClone(a, x, p, items[0], iteratorVar).arena, x, p, items[1..], iteratorVar);
    }
  }

  /** A loop whose parameters fail to parse changes nothing and raises the
      parsing error. */
  lemma LoopFailsUnchanged(a: seq<Node>, x: NodeId, ctx: Ctx)
    requires WellFormed(a) && 0 < x < |a| && ParseLoop(ForParamsOf(a[x]), ctx).Err?
    ensures HandleLoop(a, x, ctx) == Step(a, Some(ParseLoop(ForParamsOf(a[x]), ctx).error))
  {
  }

  /** The context reaches a loop only through its parameters: the clones'
      placeholders see the iterator alone. */
  lemma LoopSeesOnlyItsParameters(a: seq<Node>, x: NodeId, ctx1: Ctx, ctx2: Ctx)
    requires WellFormed(a) && 0 < x < |a|
    requires ParseLoop(ForParamsOf(a[x]), ctx1) == ParseLoop(ForParamsOf(a[x]), ctx2)
    ensures HandleLoop(a, x, ctx1) == HandleLoop(a, x, ctx2)
  {
  }

  /** After a loop, its parent holds exactly one fresh clone per array value,
      in order of creation, each labelled like the loop node without
      `vl-for`; the loop node itself is no longer among the parent's
      children and has lost its `vl-for`. */
  lemma LoopExpansion(a: seq<Node>, x: NodeId, ctx: Ctx)
    requires WellFormed(a) && 0 < x < |a| && HandleLoop(a, x, ctx).err.None?
    ensures ParseLoop(ForParamsOf(a[x]), ctx).Ok? && a[x].Element?
    ensures var items := ParseLoop(ForParamsOf(a[x]), ctx).value.items;
      var b := HandleLoop(a, x, ctx).arena; var p := ParentOf(a, x);
      b[p].Element? && |b[p].children| == |items|
      && (forall k :: 0 <= k < |items| ==>
            |a| <= b[p].children[k] < |b| && b[b[p].children[k]].parent == Some(p)
            && Label(b[b[p].children[k]]) == Element(a[x].tag, RemoveAttr(a[x].attrs, ForAttr), [], None))
      && (forall k1, k2 :: 0 <= k1 < k2 < |items| ==> b[p].children[k1] < b[p].children[k2])
      && ForParamsOf(b[x]) == None
      && forall j :: 0 <= j < |a| && j != p && j != x ==> b[j] == a[j]
  {
    var lp := ParseLoop(ForParamsOf(a[x]), ctx).value;
    var a1 := SetAttrs(a, x, RemoveAttr(a[x].attrs, ForAttr));
    var p := ParentOf(a1, x);
    var a2 := ClearChildren(a1, p);
    ExpandClonesShape(a2, x, p, lp.items, lp.iteratorVar);
    GetAttrAfterRemove(a[x].attrs, ForAttr, ForAttr);
  }

  /** A second run over the same loop node finds no `vl-for` and fails
      without changing anything, as a second `compile` does. */
  lemma LoopRerunFails(a: seq<Node>, x: NodeId, ctx: Ctx, ctx2: Ctx)
    requires WellFormed(a) && 0 < x < |a| && HandleLoop(a, x, ctx).err.None?
    ensures var b := HandleLoop(a, x, ctx).arena;
      HandleLoop(b, x, ctx2) == Step(b, Some(IncorrectForParams(None)))
  {
    LoopExpansion(a, x, ctx);
  }

  /** A loop over an n-value array whose body has no placeholders leaves its
      parent holding n copies of the body without `vl-for`. */
  lemma LoopCopiesBody(a: seq<Node>, x: NodeId, ctx: Ctx)
    requires WellFormed(a) && 0 < x < |a| && ParseLoop(ForParamsOf(a[x]), ctx).Ok?
    requires Select(a, x, VariableAttr) == []
    ensures HandleLoop(a, x, ctx).err.None? && a[x].Element?
    ensures var n := |ParseLoop(ForParamsOf(a[x]), ctx).value.items|;
      var p := ParentOf(a, x);
      var body := Elem(a[x].tag, RemoveAttr(a[x].attrs, ForAttr), ToTree(a, x).kids);
      ToTree(HandleLoop(a, x, ctx).arena, p) == Elem(a[p].tag, a[p].attrs, seq(n, _ => body))
  {
    var lp := ParseLoop(ForParamsOf(a[x]), ctx).value;
    var a1 := SetAttrs(a, x, RemoveAttr(a[x].attrs, ForAttr));
    var p := ParentOf(a1, x);
    var a2 := ClearChildren(a1, p);
    var body := Elem(a[x].tag, RemoveAttr(a[x].attrs, ForAttr), ToTree(a, x).kids);
    LoopBodyAfterClear(a, x, a2, p);
    ExpandClonesCopies(a2, x, p, lp.items, lp.iteratorVar);
    var b := ExpandClones(a2, x, p, lp.items, lp.iteratorVar).arena;
    assert b == HandleLoop(a, x, ctx).arena;
    assert Label(b[p]) == Label(a[p]);
    assert a2[p].children == [];
    ParentHolds(b, p, seq(|lp.items|, _ => body));
  }

  /** A parent whose children read back as ts holds ts. */
  lemma ParentHolds(b: seq<Node>, p: NodeId, ts: seq<Tree>)
    requires WellFormed(b) && p < |b| && b[p].Element? && |b[p].children| == |ts|
    requires forall k :: 0 <= k < |ts| ==> b[p].children[k] < |b| && ToTree(b, b[p].children[k]) == ts[k]
    ensures ToTree(b, p) == Elem(b[p].tag, b[p].attrs, ts)
  {
    assert ChildrenAfter(b, p);
    assert ToTree(b, p).kids == ts;
  }

  /** The loop node once its `vl-for` is gone and its parent emptied: the
      same subtree without `vl-for`, and still without placeholders if it
      had none. */
  lemma LoopBodyAfterClear(a: seq<Node>, x: NodeId, a2: seq<Node>, p: NodeId)
    requires WellFormed(a) && 0 < x < |a| && a[x].Element?
    requires p == ParentOf(a, x)
    requires a2 == ClearChildren(SetAttrs(a, x, RemoveAttr(a[x].attrs, ForAttr)), p)
    ensures ToTree(a2, x) == Elem(a[x].tag, RemoveAttr(a[x].attrs, ForAttr), ToTree(a, x).kids)
    ensures Select(a, x, VariableAttr) == [] ==> Select(a2, x, VariableAttr) == []
  {
    var cs := a[x].children;
    assert ChildrenAfter(a, x);
    assert a2[x] == a[x].(attrs := RemoveAttr(a[x].attrs, ForAttr));
    forall k | 0 <= k < |cs| ensures ToTree(a2, cs[k]) == ToTree(a, cs[k]) {
      ToTreeFrame(a, a2, cs[k]);
    }
    assert ToTree(a2, x).kids == ToTree(a, x).kids;
    SelectEmptyIff(a, x, VariableAttr);
    SelectEmptyIff(a2, x, VariableAttr);
  }

  /** One turn of the loop resolves its clone as the reference does: the
      error of the reference, or a clone that reads back as the resolved
      body, with the body left as it was. */
  lemma AddCloneResolves(a: seq<Node>, x: NodeId, p: NodeId, value: Value, iteratorVar: string)
    requires WellFormed(a) && p < x < |a| && a[p].Element?
    ensures var r := AddClone(a, x, p, value, iteratorVar);
      match ResolveTree(ToTree(a, x), map[iteratorVar := value])
      case Err(e) => r.err == Some(e)
      case Ok(t) => r.err.None? && |a| < |r.arena| && ToTree(r.arena, |a|) == t && ToTree(r.arena, x) == ToTree(a, x)
  {
    var c := |a|;
    var ctx := map[iteratorVar := value];
    var a1 := Clone(a, x, p);
    var xs := Select(a1, c, VariableAttr);
    CloneTidy(a, x, p);
    ResolveBelow(a1, c, ctx, ToTree(a1, c));
    ResolveVarsKeeps(a1, xs, ctx, c);
    var s := ResolveVars(a1, xs, ctx);
    match ResolveTree(ToTree(a, x), ctx)
    case Err(e) =>
    case Ok(t) =>
      var b := AppendChild(s.arena, p, c);
      assert b == AddClone(a, x, p, value, iteratorVar).arena;
      assert s.arena[c].parent == a1[c].parent;
      ToTreeFrame(s.arena, b, c);
      forall j | x <= j < |a| ensures b[j] == a[j] {
        assert !Below(a1, j, c);
        assert a1[j] == a1[..|a|][j];
      }
      ToTreeFrame(a, b, x);
  }

  /** Below p, after its first children: one clone per tree of ts, in order,
      each reading back as that tree. */
  ghost predicate ClonesResolved(a: seq<Node>, b: seq<Node>, p: NodeId, ts: seq<Tree>)
    requires WellFormed(b) && p < |a| && p < |b| && a[p].Element? && b[p].Element?
  {
    var n := |a[p].children|;
    |b[p].children| == n + |ts|
    && forall k :: n <= k < |b[p].children| ==> b[p].children[k] < |b| && ToTree(b, b[p].children[k]) == ts[k - n]
  }

  /** The whole loop resolves its clones as the reference does: it fails
      with the reference's error, or p gains exactly the resolved bodies. */
  lemma {:induction false} ExpandClonesResolves(a: seq<Node>, x: NodeId, p: NodeId, items: seq<Value>, iteratorVar: string)
    requires WellFormed(a) && p < x < |a| && a[p].Element?
    ensures var r := ExpandClones(a, x, p, items, iteratorVar);
      match LoopClones(ToTree(a, x), items, iteratorVar)
      case Err(e) => r.err == Some(e)
      case Ok(ts) => r.err.None? && r.arena[p].Element? && ClonesResolved(a, r.arena, p, ts)
    decreases |items|
  {
    var body := ToTree(a, x);
    if items == [] {
    } else {
      AddCloneResolves(a, x, p, items[0], iteratorVar);
      match ResolveTree(body, map[iteratorVar := items[0]])
      case Err(e) =>
      case Ok(t) =>
        var a3 := AddClone(a, x, p, items[0], iteratorVar).arena;
        AddCloneShape(a, x, p, items[0], iteratorVar);
        ExpandClonesResolves(a3, x, p, items[1..], iteratorVar);
        match LoopClones(body, items[1..], iteratorVar)
        case Err(e) =>
        case Ok(ts) =>
          ExpandClonesShape(a3, x, p, items[1..], iteratorVar);
          var b := ExpandClones(a3, x, p, items[1..], iteratorVar).arena;
          assert b == ExpandClones(a, x, p, items, iteratorVar).arena;
          ResolvedStep(a, a3, b, x, p, t, ts);
    }
  }

  /** One resolved clone followed by clones reading back as ts. */
  lemma ResolvedStep(a: seq<Node>, a3: seq<Node>, b: seq<Node>, x: NodeId, p: NodeId, t: Tree, ts: seq<Tree>)
    requires WellFormed(a) && WellFormed(a3) && WellFormed(b)
    requires p < x < |a| < |a3| <= |b| && a[p].Element? && a3[p].Element? && b[p].Element?
    requires a3[p].children == a[p].children + [|a|] && ToTree(a3, |a|) == t
    requires Expanded(a3, b, x, p, |ts|) && ClonesResolved(a3, b, p, ts)
    ensures ClonesResolved(a, b, p, [t] + ts)
  {
    var c := |a|;
    var n := |a[p].children|;
    ToTreeFrame(a3, b, c);
    assert b[p].children[..n + 1] == a3[p].children;
    assert b[p].children[n] == c;
  }

  /** A loop leaves below its parent exactly what the reference expects:
      the loop node without `vl-for`, resolved once per array value with
      only the iterator bound; or it fails with the first clone's error. */
  lemma LoopResolves(a: seq<Node>, x: NodeId, ctx: Ctx)
    requires WellFormed(a) && 0 < x < |a| && ParseLoop(ForParamsOf(a[x]), ctx).Ok?
    ensures a[x].Element?
    ensures var lp := ParseLoop(ForParamsOf(a[x]), ctx).value;
      var body := Elem(a[x].tag, RemoveAttr(a[x].attrs, ForAttr), ToTree(a, x).kids);
      var r := HandleLoop(a, x, ctx); var p := ParentOf(a, x);
      match LoopClones(body, lp.items, lp.iteratorVar)
      case Err(e) => r.err == Some(e)
      case Ok(ts) => r.err.None? && ToTree(r.arena, p) == Elem(a[p].tag, a[p].attrs, ts)
  {
    var lp := ParseLoop(ForParamsOf(a[x]), ctx).value;
    var a1 := SetAttrs(a, x, RemoveAttr(a[x].attrs, ForAttr));
    var p := ParentOf(a1, x);
    var a2 := ClearChildren(a1, p);
    LoopBodyAfterClear(a, x, a2, p);
    ExpandClonesResolves(a2, x, p, lp.items, lp.iteratorVar);
    var r := ExpandClones(a2, x, p, lp.items, lp.iteratorVar);
    assert r == HandleLoop(a, x, ctx);
    match LoopClones(ToTree(a2, x), lp.items, lp.iteratorVar)
    case Err(e) =>
    case Ok(ts) =>
      assert Label(r.arena[p]) == Label(a[p]);
      ClearedParentHolds(a2, r.arena, p, ts);
  }

  /** A parent emptied before the loop holds just the clones. */
  lemma ClearedParentHolds(a2: seq<Node>, b: seq<Node>, p: NodeId, ts: seq<Tree>)
    requires WellFormed(b) && p < |a2| && p < |b| && a2[p].Element? && b[p].Element?
    requires a2[p].children == [] && ClonesResolved(a2, b, p, ts)
    ensures ToTree(b, p) == Elem(b[p].tag, b[p].attrs, ts)
  {
    assert |a2[p].children| == 0;
    ParentHolds(b, p, ts);
  }

  // ---------------------------------------------------------------------
  // compile (src/index.ts:107-136)
  // ---------------------------------------------------------------------

  /** Markup whose parsed nodes carry none of `vl-variable`, `vl-for` and
      `vl-attr` compiles, whatever the context, to the serialisation of
      what was parsed, and the tree stays as it was. */
  lemma CompilePlainMarkup(ts: seq<Tree>, ctx: Ctx)
    requires !KidsMention(ts, VariableAttr) && !KidsMention(ts, ForAttr) && !KidsMention(ts, MarkerAttr)
    ensures var a := Build(ts);
      WellFormed(a)
      && CompileSpec(a, Select(a, 0, ForAttr), Select(a, 0, MarkerAttr), ctx) == Outcome(a, Ok(RenderKids(ts)))
  {
    var a := Build(ts);
    BuildCorrect(ts);
    SelectEmptyIff(a, 0, VariableAttr);
    SelectEmptyIff(a, 0, ForAttr);
    SelectEmptyIff(a, 0, MarkerAttr);
  }

  /** Markup without loops and markers compiles to the serialisation of the
      parsed nodes with every placeholder replaced by its value, or throws
      the first placeholder error in document order. */
  lemma CompileWithoutLoops(ts: seq<Tree>, ctx: Ctx)
    requires !KidsMention(ts, ForAttr) && !KidsMention(ts, MarkerAttr)
    ensures var a := Build(ts);
      WellFormed(a)
      && CompileSpec(a, Select(a, 0, ForAttr), Select(a, 0, MarkerAttr), ctx).result
         == match ResolveTree(Elem("", [], ts), ctx)
            case Err(e) => Err(e)
            case Ok(t) => Ok(Render(t))
  {
    var a := Build(ts);
    BuildCorrect(ts);
    BuildTidy(ts);
    SelectEmptyIff(a, 0, ForAttr);
    SelectEmptyIff(a, 0, MarkerAttr);
    VariablePassResolves(a, ctx);
    var s2 := VariablePass(a, ctx);
    assert BindPass(s2.arena, [], ctx) == Step(s2.arena, None);
  }

  /** Markup with loops but without markers: `compile` throws the first loop
      error, or the first placeholder error, in document order, of the tree
      the loops leave behind, or returns that tree's serialisation with every
      placeholder replaced by its value. */
  lemma CompileAfterLoops(ts: seq<Tree>, ctx: Ctx)
    requires !KidsMention(ts, MarkerAttr)
    ensures WellFormed(Build(ts))
    ensures var a := Build(ts);
      var loops := Select(a, 0, ForAttr);
      var s1 := LoopPass(a, loops, ctx);
      Tidy(s1.arena, 0)
      && CompileSpec(a, loops, Select(a, 0, MarkerAttr), ctx).result
         == if s1.err.Some? then Err(s1.err.value)
            else match ResolveTree(ToTree(s1.arena, 0), ctx)
              case Err(e) => Err(e)
              case Ok(t) => Ok(Render(t))
  {
    var a := Build(ts);
    BuildCorrect(ts);
    BuildTidy(ts);
    SelectEmptyIff(a, 0, MarkerAttr);
    var loops := Select(a, 0, ForAttr);
    LoopPassKeepsTidy(a, loops, ctx);
    var s1 := LoopPass(a, loops, ctx);
    if s1.err.None? {
      VariablePassResolves(s1.arena, ctx);
      var s2 := VariablePass(s1.arena, ctx);
      assert BindPass(s2.arena, [], ctx) == Step(s2.arena, None);
    }
  }
}
