/**
 * The passes of `compile` (src/index.ts:48-136) as functions of the node
 * store. Each pass either finishes or stops at the first error; the store
 * it leaves behind keeps every change made before the error, since the
 * engine changes its tree in place and a later call sees those changes.
 */
module Resolver {
  import opened Wrappers
  import opened Errors
  import opened Values
  import opened LoopParams
  import opened Tree

  const VariableAttr: string := "vl-variable"
  const ForAttr: string := "vl-for"
  const MarkerAttr: string := "vl-attr"
  const DirectivePrefix: string := "vl-"

  /** The store reached and the error that stopped the pass, if any. */
  datatype Step = Step(arena: seq<Node>, err: Option<Error>)

  /** Node identifiers other than the root that are in the store. */
  ghost predicate IdsIn(ids: seq<NodeId>, a: seq<Node>)
  {
    forall i :: 0 <= i < |ids| ==> 0 < ids[i] < |a|
  }

  // ---------------------------------------------------------------------
  // Variables (src/index.ts:48-62)
  // ---------------------------------------------------------------------

  /** The identifier a placeholder element holds: its text content. */
  function VariableName(a: seq<Node>, x: NodeId): string
    requires WellFormed(a) && x < |a|
  {
    TextContent(ToTree(a, x))
  }

  /** `replaceVariableWithValue`: the placeholder is replaced by the text of
      the value its identifier names. */
  function ReplaceVariable(a: seq<Node>, x: NodeId, ctx: Ctx): (r: Result<seq<Node>>)
    requires WellFormed(a) && 0 < x < |a|
    ensures r.Ok? ==> WellFormed(r.value) && KeepsLabels(a, r.value) && |r.value| == |a| + 1
    ensures r.Err? ==> r.error == Validation || r.error == NotDefined(Variable, VariableName(a, x))
  {
    var name := VariableName(a, x);
    if name == "" then Err(Validation)
    else if name !in ctx then Err(NotDefined(Variable, name))
    else Ok(ReplaceWithText(a, x, Stringify(ctx[name])))
  }

  /** A `forEach` over placeholders with `replaceVariableWithValue`. */
  function ResolveVars(a: seq<Node>, xs: seq<NodeId>, ctx: Ctx): (r: Step)
    requires WellFormed(a) && IdsIn(xs, a)
    ensures WellFormed(r.arena) && KeepsLabels(a, r.arena)
    decreases |xs|
  {
    if xs == [] then Step(a, None)
    else match ReplaceVariable(a, xs[0], ctx)
      case Err(e) => Step(a, Some(e))
      case Ok(b) => ResolveVars(b, xs[1..], ctx)
  }

  /** The variable pass of `compile`: placeholders are looked up afresh. */
  function VariablePass(a: seq<Node>, ctx: Ctx): (r: Step)
    requires WellFormed(a)
    ensures WellFormed(r.arena) && KeepsLabels(a, r.arena)
  {
    ResolveVars(a, Select(a, 0, VariableAttr), ctx)
  }

  // ---------------------------------------------------------------------
  // Loops (src/index.ts:87-105)
  // ---------------------------------------------------------------------

  /** One turn of the `forEach` over the array: a clone of x whose
      placeholders see only the iterator, bound to `value`, appended to p. */
  function AddClone(a: seq<Node>, x: NodeId, p: NodeId, value: Value, iteratorVar: string): (r: Step)
    requires WellFormed(a) && p < x < |a| && a[p].Element?
    ensures WellFormed(r.arena) && KeepsLabels(a, r.arena)
  {
    var c := |a|;
    var a1 := Clone(a, x, p);
    var s := ResolveVars(a1, Select(a1, c, VariableAttr), map[iteratorVar := value]);
    KeepsLabelsGrows(a1, s.arena);
    if s.err.Some? then s
    else Step(AppendChild(s.arena, p, c), None)
  }

  /** The `forEach` over the array. */
  function ExpandClones(a: seq<Node>, x: NodeId, p: NodeId, items: seq<Value>, iteratorVar: string): (r: Step)
    requires WellFormed(a) && p < x < |a| && a[p].Element?
    ensures WellFormed(r.arena) && KeepsLabels(a, r.arena)
    decreases |items|
  {
    if items == [] then Step(a, None)
    else
      var s := AddClone(a, x, p, items[0], iteratorVar);
      KeepsLabelsGrows(a, s.arena);
      if s.err.Some? then s
      else ExpandClones(s.arena, x, p, items[1..], iteratorVar)
  }

  /** The `vl-for` attribute of a node, None where it has none. */
  function ForParamsOf(n: Node): Option<string>
  {
    if n.Element? then GetAttr(n.attrs, ForAttr) else None
  }

  /** `handleLoop`: parse the parameters, drop `vl-for`, empty the parent
      and fill it with one resolved clone per array value. */
  function HandleLoop(a: seq<Node>, x: NodeId, ctx: Ctx): (r: Step)
    requires WellFormed(a) && 0 < x < |a|
    ensures WellFormed(r.arena) && Grows(a, r.arena)
  {
    match ParseLoop(ForParamsOf(a[x]), ctx)
    case Err(e) => Step(a, Some(e))
    case Ok(Loop(items, iteratorVar)) =>
      var a1 := SetAttrs(a, x, RemoveAttr(a[x].attrs, ForAttr));
      var p := ParentOf(a1, x);
      var a2 := ClearChildren(a1, p);
      var r := ExpandClones(a2, x, p, items, iteratorVar);
      KeepsLabelsGrows(a2, r.arena);
      r
  }

  /** The loop pass of `compile`, over the loops found at construction. */
  function LoopPass(a: seq<Node>, loops: seq<NodeId>, ctx: Ctx): (r: Step)
    requires WellFormed(a) && IdsIn(loops, a)
    ensures WellFormed(r.arena) && Grows(a, r.arena)
    decreases |loops|
  {
    if loops == [] then Step(a, None)
    else
      var s := HandleLoop(a, loops[0], ctx);
      if s.err.Some? then s else LoopPass(s.arena, loops[1..], ctx)
  }

  /** The pass from position i on: the loop at i, then those after it. */
  lemma LoopPassAt(a: seq<Node>, loops: seq<NodeId>, i: nat, ctx: Ctx)
    requires WellFormed(a) && IdsIn(loops, a) && i < |loops|
    ensures IdsIn(loops[i..], a)
    ensures var s := HandleLoop(a, loops[i], ctx);
      IdsIn(loops[i + 1..], s.arena)
      && LoopPass(a, loops[i..], ctx) == if s.err.Some? then s else LoopPass(s.arena, loops[i + 1..], ctx)
  {
    assert loops[i..][0] == loops[i] && loops[i..][1..] == loops[i + 1..];
  }

  // ---------------------------------------------------------------------
  // Attribute bindings (src/index.ts:114-134)
  // ---------------------------------------------------------------------

  /** An attribute the binding pass resolves: `vl-` but not the marker. */
  predicate IsDirective(name: string)
  {
    |name| >= 3 && name[..3] == DirectivePrefix && name != MarkerAttr
  }

  datatype AttrStep = AttrStep(attrs: seq<Attr>, err: Option<Error>)

  /** The `forEach` over `Object.entries(node.attributes)`: `snapshot` is
      the list the entries were taken from, `current` the node's list as
      the iteration changes it. */
  function BindAttrs(snapshot: seq<Attr>, current: seq<Attr>, ctx: Ctx): AttrStep
    decreases |snapshot|
  {
    if snapshot == [] then AttrStep(current, None)
    else
      var name := snapshot[0].name;
      var value := snapshot[0].value;
      if !IsDirective(name) then BindAttrs(snapshot[1..], current, ctx)
      else if value == "" then AttrStep(current, Some(EmptyAttribute(name[3..])))
      else if value !in ctx then AttrStep(current, Some(NotDefined(AttributeInitializer, value)))
      else BindAttrs(snapshot[1..], RemoveAttr(SetAttr(current, name[3..], Stringify(ctx[value])), name), ctx)
  }

  /** The bindings of one marked node, then the marker's removal. */
  function BindNode(a: seq<Node>, x: NodeId, ctx: Ctx): (r: Step)
    requires WellFormed(a) && x < |a|
    ensures WellFormed(r.arena) && Grows(a, r.arena)
  {
    if !a[x].Element? then Step(a, None)
    else
      var b := BindAttrs(a[x].attrs, a[x].attrs, ctx);
      if b.err.Some? then Step(SetAttrs(a, x, b.attrs), b.err)
      else Step(SetAttrs(a, x, RemoveAttr(b.attrs, MarkerAttr)), None)
  }

  /** The binding pass of `compile`, over the nodes marked at construction. */
  function BindPass(a: seq<Node>, nodes: seq<NodeId>, ctx: Ctx): (r: Step)
    requires WellFormed(a) && IdsIn(nodes, a)
    ensures WellFormed(r.arena) && Grows(a, r.arena)
    decreases |nodes|
  {
    if nodes == [] then Step(a, None)
    else
      var s := BindNode(a, nodes[0], ctx);
      if s.err.Some? then s else BindPass(s.arena, nodes[1..], ctx)
  }

  // ---------------------------------------------------------------------
  // compile (src/index.ts:107-136)
  // ---------------------------------------------------------------------

  /** The store after a call and what the call returns or throws. */
  datatype Outcome = Outcome(arena: seq<Node>, result: Result<string>)

  function CompileSpec(a: seq<Node>, loops: seq<NodeId>, marked: seq<NodeId>, ctx: Ctx): (r: Outcome)
    requires WellFormed(a) && IdsIn(loops, a) && IdsIn(marked, a)
    ensures WellFormed(r.arena) && Grows(a, r.arena)
  {
    var s1 := LoopPass(a, loops, ctx);
    if s1.err.Some? then Outcome(s1.arena, Err(s1.err.value))
    else
      var s2 := VariablePass(s1.arena, ctx);
      KeepsLabelsGrows(s1.arena, s2.arena);
      if s2.err.Some? then Outcome(s2.arena, Err(s2.err.value))
      else
        var s3 := BindPass(s2.arena, marked, ctx);
        if s3.err.Some? then Outcome(s3.arena, Err(s3.err.value))
        else Outcome(s3.arena, Ok(Render(ToTree(s3.arena, 0))))
  }
}
