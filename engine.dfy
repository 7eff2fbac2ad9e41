/**
 * The `TemplateEngine` class (src/index.ts:25-138). Construction normalises
 * the markup, parses it, validates it and takes three snapshots of marked
 * nodes; `compile` then changes the parsed tree in place. The HTML parser and
 * its validity check are not part of this model: they are parameters of
 * `Create`, a parser giving the top-level nodes of the markup.
 */
module Engine {
  import opened Wrappers
  import opened Errors
  import opened Values
  import opened LoopParams
  import opened Normalizer
  import opened Tree
  import opened Resolver

  class TemplateEngine {
    /** The markup after both rewrites. */
    var markup: string
    /** The parsed tree (`htmlTree`), node 0 being its root. */
    var arena: seq<Node>
    /** The snapshots in `nodes` (src/index.ts:41-45). */
    var variables: seq<NodeId>
    var attrNodes: seq<NodeId>
    var loops: seq<NodeId>

    ghost predicate Valid()
      reads this
    {
      WellFormed(arena) && IdsIn(variables, arena) && IdsIn(attrNodes, arena) && IdsIn(loops, arena)
    }

    /** The state the constructor sets up once the markup is valid. */
    constructor Init(normalized: string, parsed: seq<Tree>)
      ensures Valid() && markup == normalized && arena == Build(parsed)
      ensures variables == Select(arena, 0, VariableAttr)
      ensures attrNodes == Select(arena, 0, MarkerAttr)
      ensures loops == Select(arena, 0, ForAttr)
    {
      BuildCorrect(parsed);
      markup := normalized;
      arena := Build(parsed);
      new;
      variables := Select(arena, 0, VariableAttr);
      attrNodes := Select(arena, 0, MarkerAttr);
      loops := Select(arena, 0, ForAttr);
    }

    /** `new TemplateEngine(markup)` (src/index.ts:30-46): throws a
        validation error exactly when the normalised markup is not valid. */
    static method Create(source: string, parse: string -> seq<Tree>, valid: string -> bool)
      returns (r: Result<TemplateEngine>)
      ensures r.Err? <==> !valid(Normalize(source))
      ensures r.Err? ==> r.error == Validation
      ensures r.Ok? ==> (fresh(r.value) && r.value.Valid()
        && r.value.markup == Normalize(source) && r.value.arena == Build(parse(Normalize(source)))
        && r.value.variables == Select(r.value.arena, 0, VariableAttr)
        && r.value.attrNodes == Select(r.value.arena, 0, MarkerAttr)
        && r.value.loops == Select(r.value.arena, 0, ForAttr))
    {
      var m := source;
      m := HandleVariables(m);
      m := HandleAttrs(m);
      var parsed := parse(m);
      if !valid(m) {
        return Err(Validation);
      }
      var engine := new TemplateEngine.Init(m, parsed);
      return Ok(engine);
    }

    /** `replaceVariableWithValue` (src/index.ts:48-62). */
    method ReplaceVariableWithValue(x: NodeId, ctx: Ctx) returns (err: Option<Error>)
      requires Valid() && 0 < x < |arena|
      modifies this
      ensures Valid() && |arena| >= |old(arena)|
      ensures markup == old(markup) && variables == old(variables)
      ensures attrNodes == old(attrNodes) && loops == old(loops)
      ensures match ReplaceVariable(old(arena), x, ctx)
        case Ok(b) => arena == b && err.None?
        case Err(e) => arena == old(arena) && err == Some(e)
    {
      var variableName := VariableName(arena, x);
      if variableName == "" {
        return Some(Validation);
      }
      if variableName !in ctx {
        return Some(NotDefined(Variable, variableName));
      }
      arena := ReplaceWithText(arena, x, Stringify(ctx[variableName]));
      return None;
    }

    /** A `forEach` over placeholders calling `replaceVariableWithValue`
        (src/index.ts:99-101 and 110-112). */
    method ResolveAll(placeholders: seq<NodeId>, ctx: Ctx) returns (err: Option<Error>)
      requires Valid() && IdsIn(placeholders, arena)
      modifies this
      ensures Valid() && KeepsLabels(old(arena), arena)
      ensures markup == old(markup) && variables == old(variables)
      ensures attrNodes == old(attrNodes) && loops == old(loops)
      ensures Step(arena, err) == ResolveVars(old(arena), placeholders, ctx)
    {
      var j := 0;
      while j < |placeholders|
        invariant 0 <= j <= |placeholders|
        invariant Valid() && IdsIn(placeholders, arena) && KeepsLabels(old(arena), arena)
        invariant markup == old(markup) && variables == old(variables)
        invariant attrNodes == old(attrNodes) && loops == old(loops)
        invariant ResolveVars(arena, placeholders[j..], ctx) == ResolveVars(old(arena), placeholders, ctx)
      {
        ghost var before := arena;
        var e := ReplaceVariableWithValue(placeholders[j], ctx);
        if e.Some? {
          return e;
        }
        KeepsLabelsTrans(old(arena), before, arena);
        j := j + 1;
      }
      return None;
    }

    /** `handleLoop` (src/index.ts:87-105). */
    method HandleLoop(x: NodeId, ctx: Ctx) returns (err: Option<Error>)
      requires Valid() && 0 < x < |arena|
      modifies this
      ensures Valid() && |arena| >= |old(arena)|
      ensures markup == old(markup) && variables == old(variables)
      ensures attrNodes == old(attrNodes) && loops == old(loops)
      ensures Step(arena, err) == Resolver.HandleLoop(old(arena), x, ctx)
    {
      var parsed := ParseLoop(ForParamsOf(arena[x]), ctx);
      if parsed.Err? {
        return Some(parsed.error);
      }
      var items, iteratorVar := parsed.value.items, parsed.value.iteratorVar;
      arena := SetAttrs(arena, x, RemoveAttr(arena[x].attrs, ForAttr));
      var p := ParentOf(arena, x);
      arena := ClearChildren(arena, p);
      ghost var cleared := arena;
      assert Resolver.HandleLoop(old(arena), x, ctx) == ExpandClones(cleared, x, p, items, iteratorVar);
      var i := 0;
      while i < |items|
        invariant 0 <= i <= |items|
        invariant Valid() && p < x < |arena| && arena[p].Element?
        invariant |arena| >= |old(arena)|
        invariant markup == old(markup) && variables == old(variables)
        invariant attrNodes == old(attrNodes) && loops == old(loops)
        invariant ExpandClones(arena, x, p, items[i..], iteratorVar)
               == ExpandClones(cleared, x, p, items, iteratorVar)
      {
        var e := AddCloneFor(x, p, items[i], iteratorVar);
        if e.Some? {
          return e;
        }
        assert items[i..][1..] == items[i + 1..];
        i := i + 1;
      }
      assert items[i..] == [];
      return None;
    }

    /** The body of the `forEach` in `handleLoop` (src/index.ts:95-104). */
    method AddCloneFor(x: NodeId, p: NodeId, value: Value, iteratorVar: string) returns (err: Option<Error>)
      requires Valid() && p < x < |arena| && arena[p].Element?
      modifies this
      ensures Valid() && KeepsLabels(old(arena), arena)
      ensures markup == old(markup) && variables == old(variables)
      ensures attrNodes == old(attrNodes) && loops == old(loops)
      ensures Step(arena, err) == AddClone(old(arena), x, p, value, iteratorVar)
    {
      var clone := |arena|;
      arena := Clone(arena, x, p);
      var iterationCtx := map[iteratorVar := value];
      ghost var cloned := arena;
      err := ResolveAll(Select(arena, clone, VariableAttr), iterationCtx);
      if err.Some? {
        return;
      }
      KeepsLabelsGrows(cloned, arena);
      arena := AppendChild(arena, p, clone);
    }

    /** The bindings of one marked node (src/index.ts:115-133). */
    method BindNode(x: NodeId, ctx: Ctx) returns (err: Option<Error>)
      requires Valid() && 0 < x < |arena|
      modifies this
      ensures Valid() && |arena| == |old(arena)|
      ensures markup == old(markup) && variables == old(variables)
      ensures attrNodes == old(attrNodes) && loops == old(loops)
      ensures Step(arena, err) == Resolver.BindNode(old(arena), x, ctx)
    {
      if !arena[x].Element? {
        return None;
      }
      ghost var start := arena;
      var snapshot := arena[x].attrs;
      var n := 0;
      while n < |snapshot|
        invariant 0 <= n <= |snapshot|
        invariant Valid() && |arena| == |start| && arena[x].Element?
        invariant markup == old(markup) && variables == old(variables)
        invariant attrNodes == old(attrNodes) && loops == old(loops)
        invariant arena == SetAttrs(start, x, arena[x].attrs)
        invariant BindAttrs(snapshot[n..], arena[x].attrs, ctx) == BindAttrs(snapshot, snapshot, ctx)
      {
        var name, value := snapshot[n].name, snapshot[n].value;
        if IsDirective(name) {
          var attributeName := name[3..];
          if value == "" {
            return Some(EmptyAttribute(attributeName));
          }
          if value !in ctx {
            return Some(NotDefined(AttributeInitializer, value));
          }
          SetAttrsTwice(start, x, arena[x].attrs, SetAttr(arena[x].attrs, attributeName, Stringify(ctx[value])));
          arena := SetAttrs(arena, x, SetAttr(arena[x].attrs, attributeName, Stringify(ctx[value])));
          SetAttrsTwice(start, x, arena[x].attrs, RemoveAttr(arena[x].attrs, name));
          arena := SetAttrs(arena, x, RemoveAttr(arena[x].attrs, name));
        }
        n := n + 1;
      }
      SetAttrsTwice(start, x, arena[x].attrs, RemoveAttr(arena[x].attrs, MarkerAttr));
      arena := SetAttrs(arena, x, RemoveAttr(arena[x].attrs, MarkerAttr));
      return None;
    }

    /** The loop pass: `handleLoop` on every loop found at construction
        (src/index.ts:108). */
    method RunLoops(ctx: Ctx) returns (err: Option<Error>)
      requires Valid()
      modifies this
      ensures Valid() && Grows(old(arena), arena)
      ensures markup == old(markup) && variables == old(variables)
      ensures attrNodes == old(attrNodes) && loops == old(loops)
      ensures Step(arena, err) == LoopPass(old(arena), loops, ctx)
    {
      var i := 0;
      while i < |loops|
        invariant 0 <= i <= |loops|
        invariant Valid() && Grows(old(arena), arena)
        invariant markup == old(markup) && variables == old(variables)
        invariant attrNodes == old(attrNodes) && loops == old(loops)
        invariant LoopPass(arena, loops[i..], ctx) == LoopPass(old(arena), loops, ctx)
      {
        ghost var before := arena;
        LoopPassAt(arena, loops, i, ctx);
        var e := HandleLoop(loops[i], ctx);
        GrowsTrans(old(arena), before, arena);
        if e.Some? {
          return e;
        }
        i := i + 1;
      }
      return None;
    }

    /** The binding pass over the nodes marked at construction
        (src/index.ts:114-134). */
    method RunBindings(ctx: Ctx) returns (err: Option<Error>)
      requires Valid()
      modifies this
      ensures Valid() && Grows(old(arena), arena)
      ensures markup == old(markup) && variables == old(variables)
      ensures attrNodes == old(attrNodes) && loops == old(loops)
      ensures Step(arena, err) == BindPass(old(arena), attrNodes, ctx)
    {
      var k := 0;
      while k < |attrNodes|
        invariant 0 <= k <= |attrNodes|
        invariant Valid() && Grows(old(arena), arena)
        invariant markup == old(markup) && variables == old(variables)
        invariant attrNodes == old(attrNodes) && loops == old(loops)
        invariant BindPass(arena, attrNodes[k..], ctx) == BindPass(old(arena), attrNodes, ctx)
      {
        ghost var before := arena;
        var e := BindNode(attrNodes[k], ctx);
        GrowsTrans(old(arena), before, arena);
        if e.Some? {
          return e;
        }
        assert attrNodes[k..][1..] == attrNodes[k + 1..];
        k := k + 1;
      }
      return None;
    }

    /** `compile(ctx)` (src/index.ts:107-136): loops, then variables, then
        bindings; the first error is thrown and no markup is returned. */
    method Compile(ctx: Ctx) returns (r: Result<string>)
      requires Valid()
      modifies this
      ensures Valid()
      ensures markup == old(markup) && variables == old(variables)
      ensures attrNodes == old(attrNodes) && loops == old(loops)
      ensures Outcome(arena, r) == CompileSpec(old(arena), loops, attrNodes, ctx)
    {
      var e := RunLoops(ctx);
      if e.Some? {
        return Err(e.value);
      }
      ghost var looped := arena;
      e := ResolveAll(Select(arena, 0, VariableAttr), ctx);
      if e.Some? {
        return Err(e.value);
      }
      KeepsLabelsGrows(looped, arena);
      e := RunBindings(ctx);
      if e.Some? {
        return Err(e.value);
      }
      return Ok(Render(ToTree(arena, 0)));
    }

    /** `compile()` with its default, empty context. */
    method CompileDefault() returns (r: Result<string>)
      requires Valid()
      modifies this
      ensures Valid()
      ensures markup == old(markup) && variables == old(variables)
      ensures attrNodes == old(attrNodes) && loops == old(loops)
      ensures Outcome(arena, r) == CompileSpec(old(arena), loops, attrNodes, map[])
    {
      r := Compile(map[]);
    }
  }
}
