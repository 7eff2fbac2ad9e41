/**
 * The behaviours the repository's tests check (tests/test.js), worked out on
 * the model. Each store is the one the parser builds for the normalised
 * markup: node 0 is the root and identifiers follow document order.
 */
module Examples {
  import opened Wrappers
  import opened Errors
  import opened Values
  import opened Tree
  import opened LoopParams
  import opened Resolver
  import opened Substitution
  import opened Properties
  import opened RewriteExamples

  // ---------------------------------------------------------------------
  // Steps shared by the examples
  // ---------------------------------------------------------------------

  /** The subtree of an element with one child. */
  lemma ToTreeOneChild(a: seq<Node>, n: NodeId, c: NodeId)
    requires WellFormed(a) && n < |a| && a[n].Element? && a[n].children == [c]
    ensures c < |a| && ToTree(a, n) == Elem(a[n].tag, a[n].attrs, [ToTree(a, c)])
  {
    assert ChildrenAfter(a, n) && a[n].children[0] == c;
  }

  /** A query on an element with one child looks at the child, then below it. */
  lemma SelectOneChild(a: seq<Node>, n: NodeId, c: NodeId, name: string)
    requires WellFormed(a) && n < |a| && a[n].Element? && a[n].children == [c]
    ensures c < |a| && Select(a, n, name) == (if HasAttr(a[c], name) then [c] else []) + Select(a, c, name)
  {
    assert ChildrenAfter(a, n) && a[n].children[0] == c;
    assert SelectKids(a, n, [c], name) == (if HasAttr(a[c], name) then [c] else []) + Select(a, c, name) + [];
  }

  /** Nothing lies below a childless element. */
  lemma SelectChildless(a: seq<Node>, n: NodeId, name: string)
    requires WellFormed(a) && n < |a| && (a[n].Text? || a[n].children == [])
    ensures Select(a, n, name) == []
  {
  }

  lemma NoLoops(a: seq<Node>, ctx: Ctx)
    requires WellFormed(a) && Select(a, 0, ForAttr) == []
    ensures LoopPass(a, Select(a, 0, ForAttr), ctx) == Step(a, None)
  {
  }

  lemma NoVariables(a: seq<Node>, ctx: Ctx)
    requires WellFormed(a) && Select(a, 0, VariableAttr) == []
    ensures VariablePass(a, ctx) == Step(a, None)
  {
    assert ResolveVars(a, [], ctx) == Step(a, None);
  }

  lemma OneVariable(a: seq<Node>, x: NodeId, ctx: Ctx)
    requires WellFormed(a) && 0 < x < |a| && Select(a, 0, VariableAttr) == [x]
    ensures var r := ReplaceVariable(a, x, ctx);
      VariablePass(a, ctx) == if r.Err? then Step(a, Some(r.error)) else Step(r.value, None)
  {
    var r := ReplaceVariable(a, x, ctx);
    assert VariablePass(a, ctx) == ResolveVars(a, [x], ctx);
    if r.Ok? {
      assert ResolveVars(r.value, [x][1..], ctx) == Step(r.value, None);
    }
  }

  lemma NoMarked(a: seq<Node>, ctx: Ctx)
    requires WellFormed(a) && Select(a, 0, MarkerAttr) == []
    ensures BindPass(a, Select(a, 0, MarkerAttr), ctx) == Step(a, None)
  {
  }

  lemma OneMarked(a: seq<Node>, x: NodeId, ctx: Ctx)
    requires WellFormed(a) && 0 < x < |a|
    ensures var s := BindNode(a, x, ctx);
      BindPass(a, [x], ctx) == if s.err.Some? then s else Step(s.arena, None)
  {
    var s := BindNode(a, x, ctx);
    if s.err.None? {
      assert BindPass(s.arena, [x][1..], ctx) == Step(s.arena, None);
    }
  }

  /** Without markers, and with no placeholder left once the one loop has
      run, `compile` runs the loop and serialises the store. */
  lemma CompileOneLoop(a: seq<Node>, x: NodeId, ctx: Ctx)
    requires WellFormed(a) && 0 < x < |a| && HandleLoop(a, x, ctx).err.None?
    requires Select(a, 0, ForAttr) == [x] && Select(a, 0, MarkerAttr) == []
    requires Select(HandleLoop(a, x, ctx).arena, 0, VariableAttr) == []
    ensures var b := HandleLoop(a, x, ctx).arena;
      CompileSpec(a, Select(a, 0, ForAttr), Select(a, 0, MarkerAttr), ctx) == Outcome(b, Ok(Render(ToTree(b, 0))))
  {
    var b := HandleLoop(a, x, ctx).arena;
    assert LoopPass(a, [x], ctx) == Step(b, None) by {
      assert LoopPass(b, [x][1..], ctx) == Step(b, None);
    }
    NoVariables(b, ctx);
    assert BindPass(b, [], ctx) == Step(b, None);
  }

  /** Without loops and markers, `compile` replaces the one placeholder and
      serialises the store. */
  lemma CompileOneVariable(a: seq<Node>, x: NodeId, ctx: Ctx, b: seq<Node>)
    requires WellFormed(a) && 0 < x < |a| && ReplaceVariable(a, x, ctx) == Ok(b)
    requires Select(a, 0, ForAttr) == [] && Select(a, 0, MarkerAttr) == [] && Select(a, 0, VariableAttr) == [x]
    ensures WellFormed(b)
    ensures CompileSpec(a, Select(a, 0, ForAttr), Select(a, 0, MarkerAttr), ctx) == Outcome(b, Ok(Render(ToTree(b, 0))))
  {
    NoLoops(a, ctx);
    OneVariable(a, x, ctx);
    assert BindPass(b, [], ctx) == Step(b, None);
  }

  /** ... or throws what the replacement throws. */
  lemma CompileOneVariableFails(a: seq<Node>, x: NodeId, ctx: Ctx, e: Error)
    requires WellFormed(a) && 0 < x < |a| && ReplaceVariable(a, x, ctx) == Err(e)
    requires Select(a, 0, ForAttr) == [] && Select(a, 0, MarkerAttr) == [] && Select(a, 0, VariableAttr) == [x]
    ensures CompileSpec(a, Select(a, 0, ForAttr), Select(a, 0, MarkerAttr), ctx).result == Err(e)
  {
    NoLoops(a, ctx);
    OneVariable(a, x, ctx);
  }

  /** Without loops and placeholders, `compile` binds the one marked node and
      serialises the store, or throws what the binding throws. */
  lemma CompileOneMarked(a: seq<Node>, x: NodeId, ctx: Ctx)
    requires WellFormed(a) && 0 < x < |a|
    requires Select(a, 0, ForAttr) == [] && Select(a, 0, VariableAttr) == [] && Select(a, 0, MarkerAttr) == [x]
    ensures var s := BindNode(a, x, ctx);
      CompileSpec(a, Select(a, 0, ForAttr), Select(a, 0, MarkerAttr), ctx)
      == if s.err.Some? then Outcome(s.arena, Err(s.err.value)) else Outcome(s.arena, Ok(Render(ToTree(s.arena, 0))))
  {
    NoLoops(a, ctx);
    NoVariables(a, ctx);
    OneMarked(a, x, ctx);
  }

  // ---------------------------------------------------------------------
  // `<div>{{text}}</div>` (tests/test.js:14-16, 39-45)
  // ---------------------------------------------------------------------

  /** The names of the three marks differ. */
  lemma MarkNamesDistinct()
    ensures VariableAttr != ForAttr && VariableAttr != MarkerAttr && ForAttr != MarkerAttr
  {
    assert VariableAttr[3] != ForAttr[3] && VariableAttr[3] != MarkerAttr[3] && ForAttr[3] != MarkerAttr[3];
  }

  /** A node with a single attribute carries that name and no other. */
  lemma OneAttr(n: Node, at: Attr, name: string)
    requires n.Element? && n.attrs == [at]
    ensures HasAttr(n, name) <==> at.name == name
  {
  }

  /** `<div><span vl-variable>text</span></div>`, the normalised form of
      `<div>{{text}}</div>`. */
  function VariableStore(): seq<Node>
  {
    [ Element("", [], [1], None),
      Element("div", [], [2], Some(0)),
      Element("span", [Attr("vl-variable", "")], [3], Some(1)),
      Text("text", Some(2)) ]
  }

  lemma VariableStoreWellFormed()
    ensures WellFormed(VariableStore())
  {
    var a := VariableStore();
    assert forall i :: 0 <= i < |a| ==> ChildrenAfter(a, i) && ParentBefore(a, i);
  }

  lemma VariableStoreParsed()
    ensures WellFormed(VariableStore())
    ensures ToTree(VariableStore(), 0)
         == Elem("", [], [Elem("div", [], [Elem("span", [Attr("vl-variable", "")], [Leaf("text")])])])
  {
    var a := VariableStore();
    VariableStoreWellFormed();
    ToTreeOneChild(a, 0, 1);
    ToTreeOneChild(a, 1, 2);
    ToTreeOneChild(a, 2, 3);
  }

  /** The placeholder is the span, and nothing is a loop or marked. */
  lemma VariableStoreQuery()
    ensures WellFormed(VariableStore())
    ensures Select(VariableStore(), 0, VariableAttr) == [2]
    ensures Select(VariableStore(), 0, ForAttr) == [] && Select(VariableStore(), 0, MarkerAttr) == []
  {
    var a := VariableStore();
    VariableStoreWellFormed();
    VariableStoreSelect(VariableAttr);
    VariableStoreSelect(ForAttr);
    VariableStoreSelect(MarkerAttr);
    MarkNamesDistinct();
    OneAttr(a[2], Attr(VariableAttr, ""), VariableAttr);
    OneAttr(a[2], Attr(VariableAttr, ""), ForAttr);
    OneAttr(a[2], Attr(VariableAttr, ""), MarkerAttr);
  }

  lemma VariableStoreSelect(name: string)
    ensures WellFormed(VariableStore())
    ensures Select(VariableStore(), 0, name) == if HasAttr(VariableStore()[2], name) then [2] else []
  {
    var a := VariableStore();
    VariableStoreWellFormed();
    SelectChildless(a, 3, name);
    SelectOneChild(a, 2, 3, name);
    SelectOneChild(a, 1, 2, name);
    SelectOneChild(a, 0, 1, name);
  }

  function VariableStoreResolved(): seq<Node>
  {
    [ Element("", [], [1], None),
      Element("div", [], [4], Some(0)),
      Element("span", [Attr("vl-variable", "")], [3], Some(1)),
      Text("text", Some(2)),
      Text("hello", Some(1)) ]
  }

  /** The placeholder's identifier is the span's text, `text`. */
  lemma VariableStoreName()
    ensures WellFormed(VariableStore()) && VariableName(VariableStore(), 2) == "text"
  {
    var a := VariableStore();
    VariableStoreWellFormed();
    ToTreeOneChild(a, 2, 3);
    assert KidsText([Leaf("text")]) == "text" + "";
  }

  /** The span gives way to a text node, appended to the store. */
  lemma VariableStoreReplaced()
    ensures WellFormed(VariableStore()) && ReplaceWithText(VariableStore(), 2, "hello") == VariableStoreResolved()
  {
    var a := VariableStore();
    VariableStoreWellFormed();
    var b := ReplaceWithText(a, 2, "hello");
    assert ParentOf(a, 2) == 1;
    assert ReplaceFirst([2], 2, 4) == [4];
    var r := VariableStoreResolved();
    assert b[1] == r[1];
    assert b[4] == r[4];
    assert b[0] == r[0] && b[2] == r[2] && b[3] == r[3];
  }

  /** With a value for `text` the span gives way to its text, without one the
      lookup fails. */
  lemma VariableStoreReplace()
    ensures WellFormed(VariableStore())
    ensures ReplaceVariable(VariableStore(), 2, map["text" := Str("hello")]) == Ok(VariableStoreResolved())
    ensures ReplaceVariable(VariableStore(), 2, map[]) == Err(NotDefined(Variable, "text"))
  {
    VariableStoreName();
    VariableStoreReplaced();
    assert Stringify(Str("hello")) == "hello";
  }

  lemma ResolvedRenders()
    ensures WellFormed(VariableStoreResolved())
    ensures Render(ToTree(VariableStoreResolved(), 0)) == "<div>hello</div>"
  {
    var b := VariableStoreResolved();
    assert forall i :: 0 <= i < |b| ==> ChildrenAfter(b, i) && ParentBefore(b, i);
    ToTreeOneChild(b, 1, 4);
    ToTreeOneChild(b, 0, 1);
    var div := Elem("div", [], [Leaf("hello")]);
    assert RenderKids([div]) == Render(div) + "";
    DivHelloText(div);
  }

  lemma DivHelloText(div: Tree)
    requires div == Elem("div", [], [Leaf("hello")])
    ensures Render(div) == "<div>hello</div>"
  {
    RenderOneLeaf("hello");
    RenderElem("div", [], [Leaf("hello")], "", "hello");
    DivHelloConcat("div", "hello");
  }

  lemma DivHelloConcat(tag: string, text: string)
    requires tag == "div" && text == "hello"
    ensures "<" + tag + "" + ">" + text + "</" + tag + ">" == "<div>hello</div>"
  {
  }

  /** An element renders as its tag around its attributes and children. */
  lemma RenderElem(tag: string, attrs: seq<Attr>, kids: seq<Tree>, attrsText: string, kidsText: string)
    requires tag != "" && RenderAttrs(attrs) == attrsText && RenderKids(kids) == kidsText
    ensures Render(Elem(tag, attrs, kids)) == "<" + tag + attrsText + ">" + kidsText + "</" + tag + ">"
  {
  }

  lemma RenderOneLeaf(s: string)
    ensures RenderKids([Leaf(s)]) == s
  {
    assert RenderKids([Leaf(s)]) == s + RenderKids([]);
  }

  /** tests/test.js:39-45: `{ text: 'hello' }` gives `<div>hello</div>`. */
  lemma CompileVariable()
    ensures WellFormed(VariableStore())
    ensures var a := VariableStore();
      CompileSpec(a, Select(a, 0, ForAttr), Select(a, 0, MarkerAttr), map["text" := Str("hello")]).result
      == Ok("<div>hello</div>")
  {
    VariableStoreQuery();
    VariableStoreReplace();
    CompileOneVariable(VariableStore(), 2, map["text" := Str("hello")], VariableStoreResolved());
    ResolvedRenders();
  }

  /** tests/test.js:14-16: without a value for `text` the variable is not
      defined. */
  lemma CompileUndefinedVariable()
    ensures WellFormed(VariableStore())
    ensures var a := VariableStore();
      CompileSpec(a, Select(a, 0, ForAttr), Select(a, 0, MarkerAttr), map[]).result
      == Err(NotDefined(Variable, "text"))
  {
    VariableStoreQuery();
    VariableStoreReplace();
    CompileOneVariableFails(VariableStore(), 2, map[], NotDefined(Variable, "text"));
  }

  // ---------------------------------------------------------------------
  // `<div>{{}}</div>` (tests/test.js:10-12)
  // ---------------------------------------------------------------------

  /** `<div><span vl-variable></span></div>`, the normalised form of
      `<div>{{}}</div>`. */
  function EmptyVariableStore(): seq<Node>
  {
    [ Element("", [], [1], None),
      Element("div", [], [2], Some(0)),
      Element("span", [Attr("vl-variable", "")], [], Some(1)) ]
  }

  lemma EmptyVariableStoreWellFormed()
    ensures WellFormed(EmptyVariableStore())
  {
    var a := EmptyVariableStore();
    assert forall i :: 0 <= i < |a| ==> ChildrenAfter(a, i) && ParentBefore(a, i);
  }

  lemma EmptyVariableStoreSelect(name: string)
    ensures WellFormed(EmptyVariableStore())
    ensures Select(EmptyVariableStore(), 0, name) == if HasAttr(EmptyVariableStore()[2], name) then [2] else []
  {
    var a := EmptyVariableStore();
    EmptyVariableStoreWellFormed();
    SelectChildless(a, 2, name);
    SelectOneChild(a, 1, 2, name);
    SelectOneChild(a, 0, 1, name);
  }

  lemma EmptyVariableStoreQuery()
    ensures WellFormed(EmptyVariableStore())
    ensures Select(EmptyVariableStore(), 0, VariableAttr) == [2]
    ensures Select(EmptyVariableStore(), 0, ForAttr) == [] && Select(EmptyVariableStore(), 0, MarkerAttr) == []
  {
    var a := EmptyVariableStore();
    EmptyVariableStoreWellFormed();
    EmptyVariableStoreSelect(VariableAttr);
    EmptyVariableStoreSelect(ForAttr);
    EmptyVariableStoreSelect(MarkerAttr);
    MarkNamesDistinct();
    OneAttr(a[2], Attr(VariableAttr, ""), VariableAttr);
    OneAttr(a[2], Attr(VariableAttr, ""), ForAttr);
    OneAttr(a[2], Attr(VariableAttr, ""), MarkerAttr);
  }

  /** tests/test.js:10-12: an empty placeholder is a validation error,
      whatever the context holds. */
  lemma CompileEmptyVariable(ctx: Ctx)
    ensures WellFormed(EmptyVariableStore())
    ensures var a := EmptyVariableStore();
      CompileSpec(a, Select(a, 0, ForAttr), Select(a, 0, MarkerAttr), ctx).result == Err(Validation)
  {
    var a := EmptyVariableStore();
    EmptyVariableStoreQuery();
    assert ToTree(a, 2) == Elem("span", [Attr("vl-variable", "")], []);
    assert ReplaceVariable(a, 2, ctx) == Err(Validation);
    CompileOneVariableFails(a, 2, ctx, Validation);
  }

  // ---------------------------------------------------------------------
  // `<div vl-class="..." vl-id="some-id"></div>` (tests/test.js:18-26, 47-56)
  // ---------------------------------------------------------------------

  /** The attribute names of the binding examples are pairwise distinct. */
  lemma BindingNamesDistinct()
    ensures "vl-class" != "vl-attr" && "vl-class" != "vl-id" && "vl-attr" != "vl-id"
    ensures "class" != "vl-class" && "class" != "vl-attr" && "class" != "vl-id"
    ensures "id" != "vl-class" && "id" != "vl-attr" && "id" != "vl-id" && "id" != "class"
    ensures "vl-for" != "vl-class" && "vl-for" != "vl-attr" && "vl-for" != "vl-id"
    ensures "vl-variable" != "vl-class" && "vl-variable" != "vl-attr" && "vl-variable" != "vl-id"
    ensures "vl-class"[3..] == "class" && "vl-id"[3..] == "id"
  {
    assert "vl-class"[3] != "vl-attr"[3];
    assert "vl-class"[3] != "vl-id"[3];
    assert "vl-attr"[3] != "vl-id"[3];
    assert "vl-for"[3] != "vl-class"[3] && "vl-for"[3] != "vl-attr"[3] && "vl-for"[3] != "vl-id"[3];
    assert "vl-variable"[3] != "vl-class"[3] && "vl-variable"[3] != "vl-attr"[3] && "vl-variable"[3] != "vl-id"[3];
  }

  /** The parsed form of `<div vl-class="className" vl-attr vl-id="some-id"></div>`,
      the normalised form of `<div vl-class="className" vl-id="some-id"></div>`:
      `vl-id="some-id"` is not marked (`-` is not a word character) but the
      node carries the marker of `vl-class`. */
  function BindingStore(classValue: string): seq<Node>
  {
    [ Element("", [], [1], None),
      Element("div", [Attr("vl-class", classValue), Attr("vl-attr", ""), Attr("vl-id", "some-id")], [], Some(0)) ]
  }

  lemma BindingStoreWellFormed(classValue: string)
    ensures WellFormed(BindingStore(classValue))
  {
    var a := BindingStore(classValue);
    assert forall i :: 0 <= i < |a| ==> ChildrenAfter(a, i) && ParentBefore(a, i);
  }

  lemma BindingStoreQuery(classValue: string)
    ensures WellFormed(BindingStore(classValue))
    ensures Select(BindingStore(classValue), 0, MarkerAttr) == [1]
    ensures Select(BindingStore(classValue), 0, ForAttr) == []
    ensures Select(BindingStore(classValue), 0, VariableAttr) == []
  {
    var a := BindingStore(classValue);
    BindingStoreWellFormed(classValue);
    BindingNamesDistinct();
    var attrs := a[1].attrs;
    assert GetAttr(attrs, MarkerAttr) == Some("");
    assert GetAttr(attrs[1..], ForAttr) == GetAttr(attrs[2..], ForAttr) == GetAttr(attrs[3..], ForAttr) == None;
    assert GetAttr(attrs[1..], VariableAttr) == GetAttr(attrs[2..], VariableAttr) == GetAttr(attrs[3..], VariableAttr) == None;
    SelectChildless(a, 1, MarkerAttr);
    SelectChildless(a, 1, ForAttr);
    SelectChildless(a, 1, VariableAttr);
    SelectOneChild(a, 0, 1, MarkerAttr);
    SelectOneChild(a, 0, 1, ForAttr);
    SelectOneChild(a, 0, 1, VariableAttr);
  }

  /** One binding attribute that resolves. */
  lemma BindStep(snapshot: seq<Attr>, current: seq<Attr>, ctx: Ctx)
    requires snapshot != [] && IsDirective(snapshot[0].name) && snapshot[0].value != "" && snapshot[0].value in ctx
    ensures BindAttrs(snapshot, current, ctx)
         == BindAttrs(snapshot[1..], RemoveAttr(SetAttr(current, snapshot[0].name[3..], Stringify(ctx[snapshot[0].value])), snapshot[0].name), ctx)
  {
  }

  /** An attribute not yet present goes to the end of the list. */
  lemma SetAbsent(attrs: seq<Attr>, name: string, value: string)
    requires forall i :: 0 <= i < |attrs| ==> attrs[i].name != name
    ensures SetAttr(attrs, name, value) == attrs + [Attr(name, value)]
  {
  }

  lemma RemoveCons(at: Attr, rest: seq<Attr>, name: string)
    ensures RemoveAttr([at] + rest, name) == (if at.name == name then [] else [at]) + RemoveAttr(rest, name)
  {
    assert ([at] + rest)[1..] == rest;
  }

  /** Removing a name no attribute has changes nothing. */
  lemma {:induction false} RemoveAbsent(attrs: seq<Attr>, name: string)
    requires forall i :: 0 <= i < |attrs| ==> attrs[i].name != name
    ensures RemoveAttr(attrs, name) == attrs
  {
    if attrs != [] {
      RemoveAbsent(attrs[1..], name);
      assert attrs == [attrs[0]] + attrs[1..];
    }
  }

  /** Removal drops a head with that name... */
  lemma RemoveDropsHead(at: Attr, rest: seq<Attr>, name: string)
    requires at.name == name && forall i :: 0 <= i < |rest| ==> rest[i].name != name
    ensures RemoveAttr([at] + rest, name) == rest
  {
    assert ([at] + rest)[1..] == rest;
    RemoveAbsent(rest, name);
  }

  /** ... and keeps any other head. */
  lemma RemoveKeepsHead(at: Attr, rest: seq<Attr>, name: string, r: seq<Attr>)
    requires at.name != name && RemoveAttr(rest, name) == r
    ensures RemoveAttr([at] + rest, name) == [at] + r
  {
    assert ([at] + rest)[1..] == rest;
  }

  /** Removal drops the second attribute when only it has the name. */
  lemma RemoveSecond(w: Attr, x: Attr, rest: seq<Attr>, name: string)
    requires w.name != name && x.name == name && forall i :: 0 <= i < |rest| ==> rest[i].name != name
    ensures RemoveAttr([w] + ([x] + rest), name) == [w] + rest
  {
    RemoveDropsHead(x, rest, name);
    RemoveKeepsHead(w, [x] + rest, name, rest);
  }

  /** A new attribute goes to the end, then the head is removed. */
  lemma SetThenRemoveFirst(x: Attr, w: Attr, y: Attr, add: Attr)
    requires x.name != add.name && w.name != add.name && y.name != add.name
    requires w.name != x.name && y.name != x.name && add.name != x.name
    ensures RemoveAttr(SetAttr([x, w, y], add.name, add.value), x.name) == [w, y, add]
  {
    SetAbsent([x, w, y], add.name, add.value);
    assert [x, w, y] + [add] == [x] + [w, y, add];
    RemoveDropsHead(x, [w, y, add], x.name);
  }

  /** A new attribute goes to the end, then the second one is removed. */
  lemma SetThenRemoveSecond(w: Attr, x: Attr, y: Attr, add: Attr)
    requires w.name != add.name && x.name != add.name && y.name != add.name
    requires w.name != x.name && y.name != x.name && add.name != x.name
    ensures RemoveAttr(SetAttr([w, x, y], add.name, add.value), x.name) == [w, y, add]
  {
    SetAbsent([w, x, y], add.name, add.value);
    assert [w, x, y] + [add] == [w] + ([x] + [y, add]);
    RemoveSecond(w, x, [y, add], x.name);
    assert [w] + [y, add] == [w, y, add];
  }

  /** `class` is added at the end, then `vl-class` removed. */
  lemma BindingFirstStep(attrs: seq<Attr>, after: seq<Attr>)
    requires attrs == [Attr("vl-class", "className"), Attr("vl-attr", ""), Attr("vl-id", "some-id")]
    requires after == [Attr("vl-attr", ""), Attr("vl-id", "some-id"), Attr("class", "hello")]
    ensures RemoveAttr(SetAttr(attrs, "class", "hello"), "vl-class") == after
  {
    BindingNamesDistinct();
    SetThenRemoveFirst(attrs[0], attrs[1], attrs[2], Attr("class", "hello"));
  }

  /** `id` is added at the end, then `vl-id` removed. */
  lemma BindingSecondStep(attrs: seq<Attr>, after: seq<Attr>)
    requires attrs == [Attr("vl-attr", ""), Attr("vl-id", "some-id"), Attr("class", "hello")]
    requires after == [Attr("vl-attr", ""), Attr("class", "hello"), Attr("id", "root")]
    ensures RemoveAttr(SetAttr(attrs, "id", "root"), "vl-id") == after
  {
    BindingNamesDistinct();
    SetThenRemoveSecond(attrs[0], attrs[1], attrs[2], Attr("id", "root"));
  }

  /** The bindings of tests/test.js:47-56, attribute by attribute. */
  lemma BindingSteps(ctx: Ctx)
    requires "className" in ctx && ctx["className"] == Str("hello")
    requires "some-id" in ctx && ctx["some-id"] == Str("root")
    ensures var snapshot := BindingStore("className")[1].attrs;
      BindAttrs(snapshot, snapshot, ctx) == AttrStep([Attr("vl-attr", ""), Attr("class", "hello"), Attr("id", "root")], None)
  {
    var snapshot := BindingStore("className")[1].attrs;
    BindingNamesDistinct();
    var after1 := [Attr("vl-attr", ""), Attr("vl-id", "some-id"), Attr("class", "hello")];
    var after3 := [Attr("vl-attr", ""), Attr("class", "hello"), Attr("id", "root")];
    assert IsDirective("vl-class") && IsDirective("vl-id") && !IsDirective("vl-attr");
    BindingFirstStep(snapshot, after1);
    BindStep(snapshot, snapshot, ctx);
    assert snapshot[1..][1..] == snapshot[2..];
    BindingSecondStep(after1, after3);
    BindStep(snapshot[2..], after1, ctx);
    assert snapshot[2..][1..] == [];
  }

  function BoundStore(): seq<Node>
  {
    [ Element("", [], [1], None),
      Element("div", [Attr("class", "hello"), Attr("id", "root")], [], Some(0)) ]
  }

  /** The marker goes last. */
  lemma MarkerRemoved(marked: seq<Attr>, attrs: seq<Attr>)
    requires marked == [Attr("vl-attr", ""), Attr("class", "hello"), Attr("id", "root")]
    requires attrs == [Attr("class", "hello"), Attr("id", "root")]
    ensures RemoveAttr(marked, MarkerAttr) == attrs
  {
    BindingNamesDistinct();
    var t := [marked[1]] + [marked[2]];
    assert marked == [marked[0]] + t;
    assert RemoveAttr([marked[2]], MarkerAttr) == [marked[2]];
    RemoveCons(marked[1], [marked[2]], MarkerAttr);
    RemoveCons(marked[0], t, MarkerAttr);
  }

  lemma BoundStoreSet(attrs: seq<Attr>)
    requires attrs == [Attr("class", "hello"), Attr("id", "root")]
    ensures WellFormed(BindingStore("className")) && SetAttrs(BindingStore("className"), 1, attrs) == BoundStore()
  {
    BindingStoreWellFormed("className");
    var b := SetAttrs(BindingStore("className"), 1, attrs);
    assert |b| == 2 && b[0] == BoundStore()[0] && b[1] == BoundStore()[1];
  }

  /** The marked node ends with its bindings resolved and the marker gone. */
  lemma BindingNode(ctx: Ctx)
    requires "className" in ctx && ctx["className"] == Str("hello")
    requires "some-id" in ctx && ctx["some-id"] == Str("root")
    ensures WellFormed(BindingStore("className"))
    ensures BindNode(BindingStore("className"), 1, ctx) == Step(BoundStore(), None)
  {
    BindingStoreWellFormed("className");
    BindingSteps(ctx);
    var attrs := [Attr("class", "hello"), Attr("id", "root")];
    MarkerRemoved([Attr("vl-attr", ""), Attr("class", "hello"), Attr("id", "root")], attrs);
    BoundStoreSet(attrs);
  }

  lemma BoundRenders()
    ensures WellFormed(BoundStore()) && Render(ToTree(BoundStore(), 0)) == "<div class=\"hello\" id=\"root\"></div>"
  {
    var b := BoundStore();
    assert forall i :: 0 <= i < |b| ==> ChildrenAfter(b, i) && ParentBefore(b, i);
    var div := Elem("div", [Attr("class", "hello"), Attr("id", "root")], []);
    assert ToTree(b, 1) == div;
    ToTreeOneChild(b, 0, 1);
    assert RenderKids([div]) == Render(div) + "";
    BoundDivText(div);
  }

  lemma BoundDivText(div: Tree)
    requires div == Elem("div", [Attr("class", "hello"), Attr("id", "root")], [])
    ensures Render(div) == "<div class=\"hello\" id=\"root\"></div>"
  {
    var attrsText := " class=\"hello\" id=\"root\"";
    BoundAttrsText(div.attrs);
    RenderElem("div", div.attrs, [], attrsText, "");
    BoundDivConcat(attrsText);
  }

  lemma BoundDivConcat(attrsText: string)
    requires attrsText == " class=\"hello\" id=\"root\""
    ensures "<" + "div" + attrsText + ">" + "" + "</" + "div" + ">" == "<div class=\"hello\" id=\"root\"></div>"
  {
  }

  /** One attribute with a value, then the others. */
  lemma RenderValuedAttr(at: Attr, rest: seq<Attr>, atText: string, restText: string)
    requires at.value != "" && " " + at.name + "=\"" + at.value + "\"" == atText && RenderAttrs(rest) == restText
    ensures RenderAttrs([at] + rest) == atText + restText
  {
    assert ([at] + rest)[1..] == rest;
  }

  lemma ValuedAttrText(name: string, value: string, text: string)
    requires (name == "class" && value == "hello" && text == " class=\"hello\"")
          || (name == "id" && value == "root" && text == " id=\"root\"")
    ensures " " + name + "=\"" + value + "\"" == text
  {
  }

  lemma BoundAttrsText(attrs: seq<Attr>)
    requires attrs == [Attr("class", "hello"), Attr("id", "root")]
    ensures RenderAttrs(attrs) == " class=\"hello\" id=\"root\""
  {
    var classText, idText := " class=\"hello\"", " id=\"root\"";
    ValuedAttrText("id", "root", idText);
    RenderValuedAttr(attrs[1], [], idText, "");
    assert [attrs[1]] + [] == [attrs[1]] && idText + "" == idText;
    ValuedAttrText("class", "hello", classText);
    RenderValuedAttr(attrs[0], [attrs[1]], classText, idText);
    assert [attrs[0]] + [attrs[1]] == attrs;
    AttrsConcat(classText, idText);
  }

  lemma AttrsConcat(first: string, second: string)
    requires first == " class=\"hello\"" && second == " id=\"root\""
    ensures first + second == " class=\"hello\" id=\"root\""
  {
  }

  /** tests/test.js:47-56: both bindings are resolved and every `vl-`
      attribute is gone. */
  lemma CompileBindings()
    ensures WellFormed(BindingStore("className"))
    ensures var a := BindingStore("className");
      CompileSpec(a, Select(a, 0, ForAttr), Select(a, 0, MarkerAttr), map["className" := Str("hello"), "some-id" := Str("root")]).result
      == Ok("<div class=\"hello\" id=\"root\"></div>")
  {
    var ctx := map["className" := Str("hello"), "some-id" := Str("root")];
    BindingStoreQuery("className");
    BindingNode(ctx);
    CompileOneMarked(BindingStore("className"), 1, ctx);
    BoundRenders();
  }

  /** The parsed form of `<div vl-class="v" vl-attr></div>`, the normalised
      form of `<div vl-class="v"></div>`. */
  function ClassStore(classValue: string): seq<Node>
  {
    [ Element("", [], [1], None),
      Element("div", [Attr("vl-class", classValue), Attr("vl-attr", "")], [], Some(0)) ]
  }

  lemma ClassStoreQuery(classValue: string)
    ensures WellFormed(ClassStore(classValue))
    ensures Select(ClassStore(classValue), 0, MarkerAttr) == [1]
    ensures Select(ClassStore(classValue), 0, ForAttr) == []
    ensures Select(ClassStore(classValue), 0, VariableAttr) == []
  {
    var a := ClassStore(classValue);
    assert forall i :: 0 <= i < |a| ==> ChildrenAfter(a, i) && ParentBefore(a, i);
    BindingNamesDistinct();
    var attrs := a[1].attrs;
    assert GetAttr(attrs, MarkerAttr) == Some("");
    assert GetAttr(attrs[1..], ForAttr) == GetAttr(attrs[2..], ForAttr) == None;
    assert GetAttr(attrs[1..], VariableAttr) == GetAttr(attrs[2..], VariableAttr) == None;
    SelectChildless(a, 1, MarkerAttr);
    SelectChildless(a, 1, ForAttr);
    SelectChildless(a, 1, VariableAttr);
    SelectOneChild(a, 0, 1, MarkerAttr);
    SelectOneChild(a, 0, 1, ForAttr);
    SelectOneChild(a, 0, 1, VariableAttr);
  }

  /** tests/test.js:24-26: a binding without a value names its target in
      the error, whatever the context holds. */
  lemma CompileEmptyBinding(ctx: Ctx)
    ensures WellFormed(ClassStore(""))
    ensures var a := ClassStore("");
      CompileSpec(a, Select(a, 0, ForAttr), Select(a, 0, MarkerAttr), ctx).result == Err(EmptyAttribute("class"))
  {
    var a := ClassStore("");
    ClassStoreQuery("");
    BindingNamesDistinct();
    assert IsDirective("vl-class");
    assert BindAttrs(a[1].attrs, a[1].attrs, ctx).err == Some(EmptyAttribute("class"));
    CompileOneMarked(a, 1, ctx);
  }

  /** tests/test.js:18-22: a binding whose value the context lacks. */
  lemma CompileUndefinedBinding()
    ensures WellFormed(ClassStore("className"))
    ensures var a := ClassStore("className");
      CompileSpec(a, Select(a, 0, ForAttr), Select(a, 0, MarkerAttr), map[]).result
      == Err(NotDefined(AttributeInitializer, "className"))
  {
    var a := ClassStore("className");
    ClassStoreQuery("className");
    BindingNamesDistinct();
    assert IsDirective("vl-class");
    assert BindAttrs(a[1].attrs, a[1].attrs, map[]).err == Some(NotDefined(AttributeInitializer, "className"));
    CompileOneMarked(a, 1, map[]);
  }

  // ---------------------------------------------------------------------
  // `<ul><li vl-for="x in xs">{{x}}</li></ul>` (src/index.ts:87-105)
  // ---------------------------------------------------------------------

  /** `<ul><li vl-for="x in xs"><span vl-variable>x</span></li></ul>`, the
      normalised form of `<ul><li vl-for="x in xs">{{x}}</li></ul>`. */
  function ListStore(): seq<Node>
  {
    [ Element("", [], [1], None),
      Element("ul", [], [2], Some(0)),
      Element("li", [Attr("vl-for", "x in xs")], [3], Some(1)),
      Element("span", [Attr("vl-variable", "")], [4], Some(2)),
      Text("x", Some(3)) ]
  }

  lemma ListStoreWellFormed()
    ensures WellFormed(ListStore())
  {
    var a := ListStore();
    assert forall i :: 0 <= i < |a| ==> ChildrenAfter(a, i) && ParentBefore(a, i);
  }

  lemma ListStoreSelect(name: string)
    ensures WellFormed(ListStore())
    ensures var a := ListStore();
      Select(a, 0, name) == (if HasAttr(a[2], name) then [2] else []) + (if HasAttr(a[3], name) then [3] else [])
  {
    var a := ListStore();
    ListStoreWellFormed();
    SelectChildless(a, 4, name);
    SelectOneChild(a, 3, 4, name);
    var below2 := if HasAttr(a[3], name) then [3] else [];
    assert Select(a, 3, name) == [];
    SelectOneChild(a, 2, 3, name);
    assert Select(a, 2, name) == below2;
    SelectOneChild(a, 1, 2, name);
    SelectOneChild(a, 0, 1, name);
  }

  /** The loop is the `li`, and nothing is marked. */
  lemma ListStoreQuery()
    ensures WellFormed(ListStore())
    ensures Select(ListStore(), 0, ForAttr) == [2] && Select(ListStore(), 0, MarkerAttr) == []
  {
    var a := ListStore();
    ListStoreSelect(ForAttr);
    ListStoreSelect(MarkerAttr);
    MarkNamesDistinct();
    OneAttr(a[2], Attr(ForAttr, "x in xs"), MarkerAttr);
    OneAttr(a[3], Attr(VariableAttr, ""), ForAttr);
    OneAttr(a[3], Attr(VariableAttr, ""), MarkerAttr);
  }

  /** `x in xs` over `{ xs: ['a', 'b'] }` iterates `x` over the two strings. */
  lemma ListStoreLoop(ctx: Ctx)
    requires ctx == map["xs" := Arr([Str("a"), Str("b")])]
    ensures ParseLoop(ForParamsOf(ListStore()[2]), ctx) == Ok(Loop([Str("a"), Str("b")], "x"))
  {
    assert ForParamsOf(ListStore()[2]) == Some("x in xs");
    ForParamsSimple("x in xs");
  }

  function ListItem(v: string): Tree
  {
    Elem("li", [], [Leaf(v)])
  }

  /** The `li` without `vl-for`, holding the placeholder for `x`. */
  function ListBody(): Tree
  {
    Elem("li", [], [Elem("span", [Attr(VariableAttr, "")], [Leaf("x")])])
  }

  lemma ListBodyStored()
    ensures WellFormed(ListStore()) && ListStore()[2].Element?
    ensures var a := ListStore();
      Elem(a[2].tag, RemoveAttr(a[2].attrs, ForAttr), ToTree(a, 2).kids) == ListBody()
  {
    var a := ListStore();
    ListStoreWellFormed();
    ToTreeOneChild(a, 3, 4);
    ToTreeOneChild(a, 2, 3);
    assert RemoveAttr(a[2].attrs, ForAttr) == [];
  }

  /** With `x` bound to v, the loop body resolves to `<li>v</li>`. */
  lemma ListItemResolves(v: string)
    ensures ResolveTree(ListBody(), map["x" := Str(v)]) == Ok(ListItem(v))
  {
    var span := Elem("span", [Attr(VariableAttr, "")], [Leaf("x")]);
    var ctx := map["x" := Str(v)];
    assert TextContent(span) == "x" by { assert KidsText([Leaf("x")]) == "x" + ""; }
    assert ResolveKid(Leaf("x"), ctx) == Ok(Leaf("x"));
    assert [Leaf("x")][1..] == [] && [span][1..] == [];
    assert ResolveKids([], ctx) == Ok([]);
    assert [Leaf("x")] + [] == [Leaf("x")] && [Leaf(v)] + [] == [Leaf(v)];
    assert ResolveKids([Leaf("x")], ctx) == Ok([Leaf("x")]);
    assert ResolveKid(span, ctx) == Ok(Leaf(v));
    assert ResolveKids([span], ctx) == Ok([Leaf(v)]);
  }

  lemma ListClones()
    ensures LoopClones(ListBody(), [Str("a"), Str("b")], "x") == Ok([ListItem("a"), ListItem("b")])
  {
    ListItemResolves("a");
    ListItemResolves("b");
    var items := [Str("a"), Str("b")];
    var r := LoopClones(ListBody(), items, "x");
    assert r.Ok?;
    assert |r.value| == 2 && r.value[0] == ListItem("a") && r.value[1] == ListItem("b");
    assert r.value == [ListItem("a"), ListItem("b")];
  }

  /** The loop leaves `<ul><li>a</li><li>b</li></ul>` below the root. */
  lemma ListLoop(ctx: Ctx)
    requires ctx == map["xs" := Arr([Str("a"), Str("b")])]
    ensures WellFormed(ListStore())
    ensures var r := HandleLoop(ListStore(), 2, ctx);
      r.err.None? && r.arena[0] == ListStore()[0]
      && ToTree(r.arena, 1) == Elem("ul", [], [ListItem("a"), ListItem("b")])
  {
    var a := ListStore();
    ListStoreWellFormed();
    ListStoreLoop(ctx);
    ListBodyStored();
    ListClones();
    assert ParentOf(a, 2) == 1;
    LoopResolves(a, 2, ctx);
    LoopExpansion(a, 2, ctx);
  }

  lemma ListItemRenders(v: string)
    ensures Render(ListItem(v)) == "<li>" + v + "</li>"
  {
    RenderOneLeaf(v);
    RenderElem("li", [], [Leaf(v)], "", v);
  }

  lemma ListRenders()
    ensures Render(Elem("", [], [Elem("ul", [], [ListItem("a"), ListItem("b")])])) == "<ul><li>a</li><li>b</li></ul>"
  {
    var items := [ListItem("a"), ListItem("b")];
    ListItemRenders("a");
    ListItemRenders("b");
    assert items[1..] == [ListItem("b")] && items[1..][1..] == [];
    assert RenderKids(items) == "<li>a</li>" + ("<li>b</li>" + "");
    var text := "<li>a</li>" + "<li>b</li>";
    RenderElem("ul", [], items, "", text);
    var ul := Elem("ul", [], items);
    assert RenderKids([ul]) == Render(ul) + "";
    assert Render(ul) == "<ul>" + text + "</ul>";
    ListConcat(text, "<ul>" + text + "</ul>");
  }

  lemma ListConcat(text: string, out: string)
    requires text == "<li>a</li>" + "<li>b</li>" && out == "<ul>" + text + "</ul>"
    ensures out == "<ul><li>a</li><li>b</li></ul>"
  {
  }

  /** No placeholder is left in the expanded list. */
  lemma ListUnmarked(name: string)
    requires name == VariableAttr || name == MarkerAttr
    ensures !KidsMention([Elem("ul", [], [ListItem("a"), ListItem("b")])], name)
  {
    var items := [ListItem("a"), ListItem("b")];
    assert !Mentions(ListItem("a"), name) && !Mentions(ListItem("b"), name);
    assert items[1..] == [ListItem("b")] && items[1..][1..] == [];
    assert !KidsMention(items, name);
  }

  /** After the loop the root holds the list, and no placeholder is left. */
  lemma ListExpanded(ctx: Ctx)
    requires ctx == map["xs" := Arr([Str("a"), Str("b")])]
    ensures WellFormed(ListStore()) && HandleLoop(ListStore(), 2, ctx).err.None?
    ensures var b := HandleLoop(ListStore(), 2, ctx).arena;
      ToTree(b, 0) == Elem("", [], [Elem("ul", [], [ListItem("a"), ListItem("b")])])
      && Select(b, 0, VariableAttr) == []
  {
    ListLoop(ctx);
    var b := HandleLoop(ListStore(), 2, ctx).arena;
    ToTreeOneChild(b, 0, 1);
    ListUnmarked(VariableAttr);
    SelectEmptyIff(b, 0, VariableAttr);
  }

  /** The loop's clones resolve their own placeholders; the variable pass
      then finds none, and the output is the two items. */
  lemma CompileList()
    ensures WellFormed(ListStore())
    ensures var a := ListStore();
      CompileSpec(a, Select(a, 0, ForAttr), Select(a, 0, MarkerAttr), map["xs" := Arr([Str("a"), Str("b")])]).result
      == Ok("<ul><li>a</li><li>b</li></ul>")
  {
    var ctx := map["xs" := Arr([Str("a"), Str("b")])];
    ListStoreQuery();
    ListExpanded(ctx);
    CompileOneLoop(ListStore(), 2, ctx);
    ListRenders();
  }
}
