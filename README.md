# template-engine in Dafny

This project models the core of the `template-engine` package, a small HTML
template compiler:

- the `TemplateEngine` class of `src/index.ts`;
- the two markup rewrites the class applies before parsing;
- the three error classes of `src/errors.ts`.

The model targets Dafny 4.11.

A template is HTML with three kinds of directive:
- `{{ name }}` placeholders;
- `vl-<target>="name"` attribute bindings;
- `vl-for="item in items"` loops.

Construction rewrites the markup in two steps:
1. Each match of the placeholder pattern becomes `<span vl-variable>name</span>`.
   The identifier part of the pattern is greedy, so a match can run on past
   its own `}}` (see below).
2. ` vl-attr` is appended after every binding whose value is a bare word or empty.

It then parses the result, rejects markup the parser calls invalid, and takes
three snapshots of marked nodes: placeholders, marked nodes and loops.

`compile(ctx)` works on the parsed tree in place, in three passes:
1. **Loops.** Each loop of the snapshot is expanded. The loop node's parent is
   emptied and then holds one clone per array element. Each clone's placeholders
   are resolved against `{ item: element }` only.
2. **Placeholders.** Every placeholder still in the tree is replaced by the text
   of its value.
3. **Bindings.** On every marked node of the snapshot:
   - each `vl-<target>` attribute other than `vl-attr` sets `<target>` and is
     then removed;
   - finally the marker `vl-attr` is removed.

The first error is thrown and leaves the tree as far as it got.

Modules, one per concern:

- `Wrappers` (wrappers.dfy): `Option`.
- `Lexical` (lexical.dfy): JavaScript's `\s` and `\w`, and maximal runs of
  them.
- `Errors` (errors.dfy): the error kinds, `message` and `name`.
- `Values` (values.dfy): context values (a string or an array) and their
  `String(v)` form.
- `Normalizer` (normalizer.dfy): `handleVariables` and `handleAttrs`.
  - Each is a left-to-right scan that follows its regular expression,
    backtracking included.
  - Each has lemmas that say what a scan matches, what text it emits, and
    what it leaves unchanged.
- `LoopParams` (loopparams.dfy): the unanchored `vl-for` search and
  `parseLoop`.
- `Tree` (tree.dfy): the parsed tree as a store of nodes addressed by
  identifiers.
  - Children and parents are linked by identifier.
  - `ToTree` reads the subtree below a node as a value.
  - The store also has the tree operations the engine calls: attributes,
    `querySelectorAll`, `clone`, `replaceWith`, `innerHTML = ''`,
    `appendChild` and `toString`.
- `Resolver` (resolver.dfy): each pass of `compile` as a function of the store.
  The result is the store reached and the first error, if any.
- `Engine` (engine.dfy): the `TemplateEngine` class.
  - Its fields are the markup, the store and the three snapshots.
  - Its methods run the passes with `while` loops that update the store.
  - Each method's postcondition ties the new store and the error it reports
    to the matching `Resolver` function of the old store.
- `Substitution` (substitution.dfy): placeholder resolution as a function of
  tree values, and the proof that the placeholder loops of `compile` and of
  `handleLoop` compute it. It also proves that the loop pass leaves a proper
  tree, so that this holds for `compile` after its loops have run.
- `Properties` (properties.dfy): what the passes guarantee, as lemmas about
  the `Resolver` functions.
- `Examples` (examples.dfy) and `RewriteExamples` (rewrites.dfy): the
  behaviours of `tests/test.js`, worked out on the model.

Where the code does something other than what its demo page or a first
reading suggests, the model follows the code:

- **Conditionals.** The demo page uses `vl-if`/`vl-else` conditionals
  (docs/app.js:55-56). The code has no such pass, and neither does the model.
- **Placeholders that run on.** The identifier of the placeholder pattern is
  `[^\s]+`, so within a run of text without whitespace a match extends to the
  last `}}` of that run. `<p>{{a}}</p><p>{{b}}</p>` becomes a single span
  holding `a}}</p><p>{{b` (`RewriteExamples.RunOnPlaceholders`). Placeholders
  separated by whitespace are rewritten one by one
  (`RewriteExamples.SpacedPlaceholders`).
- **Where loop clones go.** One would expect the clones where the loop
  node was. The code sets the parent's `innerHTML` to `''` and then appends
  the clones, so every other child of that parent is dropped.
  - `Properties.LoopExpansion` states this: the parent ends with exactly one
    child per element. `Properties.LoopResolves` states what each of them
    holds.
  - A second loop under the same parent empties that parent again. The detached
    loop node still remembers its parent.
- **The `vl-for` pattern.** The attribute reads as `<word> in <word>`. The code's regular expression is unanchored, so
  `for x in xs` is accepted as `x in xs` (`RewriteExamples.ForParamsUnanchored`).
- **Empty placeholders.** `{{}}` is not rejected at construction. In the
  code, `{{}}` becomes an empty
  `<span vl-variable></span>`, so it is rejected by the empty-name check of
  `replaceVariableWithValue` during `compile`
  (`Examples.CompileEmptyVariable`). In the model, construction fails only when
  the validity check fails.
- **Which bindings are bound.** Only a node that carries the marker has its
  bindings resolved. A binding is marked only when its value is a bare word, so
  a node whose only binding is `vl-id="some-id"` keeps that attribute. In the
  tests, `vl-id="some-id"` is resolved only because `vl-class` marked the same
  node (`RewriteExamples.MarkBindings`, `Examples.CompileBindings`).
- **Compiling twice.** Because `compile` changes the tree, a second call sees
  the first call's result. A loop that ran has lost its `vl-for`, so a second
  call throws a for-parameters error with no parameter string
  (`Properties.LoopRerunFails`).

## Model

| member | source | states |
|---|---|---|
| Errors.Name | src/errors.ts:3-25 | an error has a `name` exactly when it is one of the three classes defined here |
| Errors.Message | src/errors.ts:3-25 | the `message` of each class: `<kind> "<name>" is not defined`, `markup is not valid`, `attribute "<name>" has an empty initializer`; a message is given exactly when the error has a `name` |
| Errors.NotDefinedMessageDeterminesName | src/errors.ts:3-9 | the message `<kind> "<name>" is not defined` quotes the name looked up: for one entity kind, equal messages mean equal names |
| Errors.EmptyAttributeMessageDeterminesName | src/errors.ts:19-25 | the message `attribute "<name>" has an empty initializer` determines the attribute name |
| Errors.DistinctKindsHaveDistinctMessages | src/errors.ts:3-25 | errors of two different classes never have the same message, nor the same class name |
| Values.Stringify | src/index.ts:61 | `String(v)` for a string or an array: a string prints as itself and an array as its items' string forms joined by commas, with no brackets; its properties are `Values.SingletonArrayPrintsAsElement` and `Values.JoinItemsAppend` |
| Values.SingletonArrayPrintsAsElement | src/index.ts:61 | a one-element array prints exactly as its element |
| Values.JoinItemsAppend | src/index.ts:61 | an array's string form is made of its parts' string forms, with a comma between non-empty parts |
| Lexical.SpaceEnd | src/index.ts:9 | the greedy `\s*` from a position: every character it takes is a space and the next one is not |
| Lexical.NonSpaceEnd | src/index.ts:9 | the greedy `[^\s]*` from a position: every character it takes is not a space and the next one is |
| Lexical.WordEnd | src/index.ts:8 | the greedy `\w*` from a position: every character it takes is a word character and the next one is not |
| Normalizer.MatchVariable | src/index.ts:9 | a match of the placeholder pattern is at least the four braces long and lies within the text |
| Normalizer.MatchVariableSound | src/index.ts:9 | what is matched is `{{`, spaces, an identifier without spaces, spaces, `}}`, and the identifier is what is captured |
| Normalizer.MatchVariableComplete | src/index.ts:9 | wherever that shape is present the pattern matches, capturing an identifier at least as long as the shape's |
| Normalizer.MatchVariableUnique | src/index.ts:9 | with no other `}` in the text, the match captures exactly the shape's identifier and ends after its `}}` |
| Normalizer.HandleVariables | src/index.ts:11-13 | `replace` with the global placeholder pattern: a left-to-right scan that replaces each `Normalizer.MatchVariable` match by `<span vl-variable>$1</span>`, resumes after it, and copies every other character; the `HandleVariables…` rows, `Normalizer.PlaceholderMatches` and the `RunOn…` examples state what it does |
| Normalizer.HandleVariablesIdentity | src/index.ts:11-13 | markup without `{{` comes back unchanged |
| Normalizer.HandleVariablesCopiesPrefix | src/index.ts:11-13 | text before a point, at no position of which a placeholder match starts, is copied through and the rest is rewritten on its own |
| Normalizer.NoVariableWithoutBrace | src/index.ts:9 | no placeholder match starts inside text without `{` |
| Normalizer.HandleVariablesTakesPlaceholder | src/index.ts:11-13 | a placeholder `{{ id }}` at the start becomes `<span vl-variable>id</span>` and the scan resumes right after it, whenever the greedy capture stops at its `}}`: the identifier and the closing spaces are both non-empty, or the text after it does not run on, without a space, into another `}` |
| Normalizer.HandleVariablesRewritesPlaceholder | src/index.ts:11-13 | in `pre{{ id }}post`, with no match starting in `pre` and the same condition on `post`, the prefix is kept, the placeholder becomes the span and `post` is rewritten on its own |
| Normalizer.PlaceholderMatches | src/index.ts:9 | under that condition the pattern matches exactly the placeholder and captures its identifier |
| Normalizer.MatchAttr | src/index.ts:8 | a binding match is non-empty and lies within the text |
| Normalizer.MatchAttrSound | src/index.ts:8 | what is matched is spaces, `vl-`, a word, `=`, a quote, a word or nothing, and a quote, up to and including that closing quote |
| Normalizer.MatchAttrComplete | src/index.ts:8 | wherever that shape is present the pattern matches up to its closing quote |
| Normalizer.MatchAttrNeedsPrefix | src/index.ts:8 | no match unless `vl-` follows the leading spaces |
| Normalizer.HandleAttrs | src/index.ts:15-17 | `replace` with the global binding pattern: a left-to-right scan that keeps each `Normalizer.MatchAttr` match, follows it with ` vl-attr`, resumes after it, and copies every other character; the `HandleAttrs…` rows and `Normalizer.AttrPieces` state what it does |
| Normalizer.HandleAttrsIdentity | src/index.ts:15-17 | markup without `vl-` comes back unchanged |
| Normalizer.HandleAttrsNoSpace | src/index.ts:15-17 | markup without spaces comes back unchanged |
| Normalizer.HandleAttrsCopiesPrefix | src/index.ts:15-17 | text before a point, at no position of which a binding match starts, is copied through unchanged and the rest is rewritten on its own |
| Normalizer.NoBindingWithoutDash | src/index.ts:8 | no binding match starts inside a prefix without `-` that ends in a non-space and is followed by a space or the end |
| Normalizer.HandleAttrsTakesBinding | src/index.ts:15-17 | a binding at the start is kept, followed by ` vl-attr`, and the scan resumes after it |
| Normalizer.HandleAttrsMarksBinding | src/index.ts:15-17 | in `pre binding post`, with no match starting in `pre`, ` vl-attr` is inserted right after the binding and the prefix is unchanged |
| Normalizer.AttrPieces | src/index.ts:15-17 | the rewrite splits any text into copied characters and matched bindings: erasing the inserted markers gives back the input, the output is each piece followed, for a binding, by ` vl-attr`, and every marked piece is exactly one match of the pattern |
| Normalizer.Normalize | src/index.ts:31-33 | the constructor's rewrite: the placeholder rewrite, then the binding rewrite on its result; `Normalizer.NormalizeIdentity` and `RewriteExamples.NormalizeVariable` state what it does |
| Normalizer.NormalizeIdentity | src/index.ts:31-33 | markup with neither `{{` nor `vl-` is not changed by the two rewrites together |
| LoopParams.MatchForAt | src/index.ts:66 | the `vl-for` pattern tried at one position, taking each run whole: a word, spaces, `in`, spaces, a word, yielding the two words; `LoopParams.MatchForAtSound` and `LoopParams.MatchForAtComplete` state both directions |
| LoopParams.MatchForAtSound | src/index.ts:66 | a match at a position is a word, spaces, `in`, spaces and a word, and yields the two words |
| LoopParams.MatchForAtComplete | src/index.ts:66 | wherever that shape with maximal runs is present, the pattern matches there and yields its two words |
| LoopParams.FindForParams | src/index.ts:66 | `match` without the `g` flag: the pattern tried at each position from the start, the first match found being returned; `LoopParams.FindForParamsNone`, `LoopParams.FindForParamsSound` and `LoopParams.FindForParamsIsLeftmost` state what it returns |
| LoopParams.FindForParamsNone | src/index.ts:66-70 | the unanchored search finds nothing exactly when the pattern matches at no position |
| LoopParams.FindForParamsSound | src/index.ts:66 | a found match is the match at some position with no match before it |
| LoopParams.FindForParamsIsLeftmost | src/index.ts:66 | the search returns the match at the leftmost matching position |
| LoopParams.ParseLoop | src/index.ts:64-85 | a for-parameters error carries the raw `vl-for` value; success means the attribute exists and the source names an array in the context, whose items are returned |
| LoopParams.ParseLoopRejectsParams | src/index.ts:65-70 | the for-parameters error is thrown exactly when the attribute is missing or the pattern matches nowhere |
| LoopParams.ParseLoopChecksInOrder | src/index.ts:64-85 | after a match: a source missing from the context is not defined, a non-array is the wrong type, an array gives its items and the iterator name |
| Tree.GetAttr | src/index.ts:65 | `getAttribute` finds a value exactly when some attribute has that name, and that attribute carries the value |
| Tree.RemoveAttr | src/index.ts:90 | `removeAttribute` keeps exactly the attributes with another name |
| Tree.SetAttr | src/index.ts:129 | `setAttribute`: an existing attribute keeps its place and takes the new value, and a new one is added at the end; `Tree.GetAttrAfterSet` states the readback |
| Tree.SetAttrs | src/index.ts:129-130 | writing a node's attribute list keeps the store well formed and changes no other node, nor that node's tag, children or parent |
| Tree.GetAttrAfterSet | src/index.ts:129 | after `setAttribute(n, v)`, attribute `n` reads as `v` and every other attribute reads as before |
| Tree.GetAttrAfterRemove | src/index.ts:130 | after `removeAttribute(n)`, `n` is absent and every other attribute reads as before |
| Tree.Select | src/index.ts:42-44 | the query yields only elements stored after the node that carry the attribute |
| Tree.SelectSound | src/index.ts:42-44 | every element the query returns is reached from the node by child links and carries the attribute |
| Tree.SelectComplete | src/index.ts:42-44 | every element reached from the node by child links that carries the attribute is returned |
| Tree.SelectEmptyIff | src/index.ts:42-44 | the query finds nothing exactly when no element below the node carries the attribute |
| Tree.BuildCorrect | src/index.ts:35 | the parsed store is well formed and reads back as a root without a tag above the parsed nodes |
| Tree.Clone | src/index.ts:96 | `clone` adds fresh nodes reading back as the same subtree, attached to the given parent, and leaves every existing node as it was |
| Tree.ParentOf | src/index.ts:92 | a non-root node's `parentNode` is an element stored before it |
| Tree.ReplaceWithText | src/index.ts:61 | `replaceWith(text)` puts a new text node in the node's first place among the parent's children; no other node changes |
| Tree.ClearChildren | src/index.ts:93 | `innerHTML = ''` leaves the parent without children and changes no other node |
| Tree.AppendChild | src/index.ts:103 | `appendChild` adds the child at the end of the parent's children and sets its parent, changing no other node |
| Tree.Render | src/index.ts:136 | `toString`: the root without a tag prints only its children; an element prints as its tag, its attributes in order (an empty value as the bare name) and its children; a text node prints its text. The `Compile…` rows state what it is applied to |
| Resolver.ReplaceVariable | src/index.ts:48-62 | success keeps the store well formed and adds one node; an error is either the validation error or "variable not defined" for this placeholder's name |
| Resolver.ResolveVars | src/index.ts:110-112 | the `forEach` over placeholders: each replaced in turn, stopping at the first error, keeping the store well formed and every node's label; `Substitution.ResolveBelow` and `Engine.TemplateEngine.ResolveAll` state what it computes |
| Resolver.VariablePass | src/index.ts:110-112 | the placeholder pass of `compile` runs a fresh query from the root and resolves what it finds; `Substitution.VariablePassResolves` states its result |
| Resolver.AddClone | src/index.ts:96-103 | one turn of the loop: clone, resolve the clone's placeholders against `{ iter: value }`, append the clone unless that failed; the store stays well formed and keeps every label. `Properties.AddCloneShape` and `Properties.AddCloneResolves` state its result |
| Resolver.ExpandClones | src/index.ts:95-104 | the `forEach` over the array, stopping at the first error; `Properties.ExpandClonesShape` and `Properties.ExpandClonesResolves` state its result |
| Resolver.HandleLoop | src/index.ts:87-105 | `handleLoop`: `parseLoop`, drop `vl-for`, empty the parent, expand the clones; the store stays well formed and keeps every node's kind. `Properties.LoopResolves`, `Properties.LoopExpansion` and `Properties.LoopFailsUnchanged` state its result |
| Resolver.LoopPass | src/index.ts:108 | the loops found at construction handled in order, stopping at the first error; `Engine.TemplateEngine.RunLoops` and `Substitution.LoopPassKeepsTidy` state what it computes and keeps |
| Resolver.BindAttrs | src/index.ts:115-131 | the `forEach` over the entries taken before the first change: non-bindings skipped, an empty value or a missing initializer failing, otherwise `setAttribute` then `removeAttribute`; the `Properties.BindAttrs…` rows state its result |
| Resolver.BindNode | src/index.ts:114-134 | one marked node: its bindings, then the removal of `vl-attr` when none failed; the store stays well formed and keeps every node's kind. `Properties.BindNodeResult` and `Properties.BindNodeFirstError` state its result |
| Resolver.BindPass | src/index.ts:114-134 | the nodes marked at construction bound in order, stopping at the first error; `Engine.TemplateEngine.RunBindings` states what it computes |
| Resolver.CompileSpec | src/index.ts:107-136 | `compile`: loops, then placeholders, then bindings, each stopping at the first error, then the serialisation of the root; `Properties.CompileWithoutLoops`, `Properties.CompileAfterLoops` and `Properties.CompilePlainMarkup` state its result |
| Substitution.ResolveTree | src/index.ts:110-112 | resolving a subtree keeps its root, tag, attributes and number of children, and fails only with the validation or the not-defined error |
| Substitution.ResolveKid | src/index.ts:48-61 | a placeholder resolves only when its name is in the context, and then to a text leaf holding the value's string form |
| Substitution.ResolvedHasNoPlaceholders | src/index.ts:110-112 | after resolution no placeholder is left below the root |
| Substitution.ResolveWithoutPlaceholders | src/index.ts:110-112 | a tree without placeholders below its root resolves to itself |
| Substitution.LoopClones | src/index.ts:95-104 | the clones succeed exactly when the body resolves for every element; then there is one per element, the k-th being the body resolved against `{ iter: items[k] }` |
| Substitution.LoopClonesFirstError | src/index.ts:95-104 | a failing loop throws the error of the first element whose clone fails, every earlier one succeeding |
| Substitution.ResolveBelow | src/index.ts:99-101 | on a part of the store that forms a proper tree, replacing every placeholder the query finds below a node throws the reference's error, or leaves that node's subtree as the reference's result and every node outside it unchanged |
| Substitution.BuildTidy | src/index.ts:35 | the parsed store is a proper tree: every element lists distinct children that name it as parent |
| Substitution.VariablePassResolves | src/index.ts:110-112 | on a proper tree, the placeholder pass of `compile` throws the reference's error or leaves the tree the reference computes |
| Substitution.HandleLoopTidy | src/index.ts:87-105 | `handleLoop` leaves a proper tree whether it succeeds or fails: dropping `vl-for`, emptying the parent, cloning, replacing the clone's placeholders and appending it each keep every element's children distinct and naming it as parent |
| Substitution.LoopPassKeepsTidy | src/index.ts:108 | the loop pass of `compile` leaves a proper tree, so `Substitution.VariablePassResolves` applies to the placeholder pass after it |
| Properties.ReplaceVariableOutcomes | src/index.ts:48-62 | an empty name fails validation, a name missing from the context is not defined, and otherwise the replacement succeeds (each an if and only if) |
| Properties.ReplaceVariableRewritesParent | src/index.ts:61 | on success, the parent's subtree is the old one with the placeholder replaced by a text leaf holding the value's string form |
| Properties.BindAttrsSucceedsIff | src/index.ts:115-131 | binding a node's attributes succeeds exactly when none of them fails; only a `vl-` attribute other than the marker can fail, with the empty-initializer error for its name without `vl-` when its value is empty, or "initializer not defined" when the context lacks its value |
| Properties.BindAttrsFirstError | src/index.ts:115-131 | the error thrown is that of the first attribute that fails, in attribute order, as described for the previous row |
| Properties.LastBinding | src/index.ts:115-131 | the value named by the last binding for a target: some binding has that target and value and no later binding has that target; none exactly when no binding has that target |
| Properties.BindAttrsResult | src/index.ts:115-131 | after a successful pass, a binding attribute reads as absent, a bound target as its value's string form, and every other attribute as before |
| Properties.BindNodeResult | src/index.ts:114-134 | when no binding's target starts with `vl-`: the same per-node result, with `vl-attr` removed as well; tag, children and every other node are unchanged |
| Properties.BindNodeClearsDirectives | src/index.ts:114-134 | when no binding's target starts with `vl-`: after a successful binding no attribute of the node starts with `vl-` |
| Properties.BindNodeFirstError | src/index.ts:114-127 | a node's binding fails with the error of its first failing attribute: the empty-initializer error or "initializer not defined" |
| Properties.ResolveVarsInside | src/index.ts:99-101 | resolving placeholders inside a clone changes no node stored before that clone, and the clone's nodes stay below it |
| Properties.AddCloneShape | src/index.ts:96-103 | one turn of the loop appends one clone of the loop node to the parent and changes no other earlier node |
| Properties.ExpandClonesShape | src/index.ts:95-104 | the loop appends one clone per array element, in order, and keeps the parent's earlier children |
| Properties.AddCloneCopies | src/index.ts:96-103 | for a body without placeholders, a turn cannot fail and the clone reads back as the loop node's subtree |
| Properties.ExpandClonesCopies | src/index.ts:95-104 | for a body without placeholders, the loop cannot fail and every appended child is an exact copy of the loop node |
| Properties.LoopFailsUnchanged | src/index.ts:87-88 | when `parseLoop` throws, `handleLoop` throws the same error and the tree is unchanged |
| Properties.LoopSeesOnlyItsParameters | src/index.ts:87-105 | `handleLoop` depends on the context only through what `parseLoop` returns: clones see only the per-element context |
| Properties.LoopExpansion | src/index.ts:87-105 | after a loop, the parent has exactly one child per element, each a new node with the loop node's tag and its attributes without `vl-for`, in order; the loop node has lost `vl-for`; no other existing node changes |
| Properties.LoopRerunFails | src/index.ts:65-70 | once a loop has run, running it again throws the for-parameters error with no parameter string |
| Properties.LoopCopiesBody | src/index.ts:87-105 | for a body without placeholders, the parent reads back as exactly `n` copies of the loop node without `vl-for`, `n` being the array's length |
| Properties.AddCloneResolves | src/index.ts:96-103 | one turn fails with the error of resolving the loop node's subtree against `{ iter: value }`, or appends a fresh clone reading back as that resolved subtree and leaves the loop node's subtree as it was |
| Properties.ExpandClonesResolves | src/index.ts:95-104 | the loop over the elements fails with the error `Substitution.LoopClones` gives, or appends one child per element after the parent's earlier children, the k-th reading back as the body resolved against `{ iter: items[k] }` |
| Properties.LoopResolves | src/index.ts:87-105 | once `parseLoop` succeeds, `handleLoop` fails with the first failing element's error, or leaves the parent's subtree holding exactly the loop node without `vl-for`, resolved once per element |
| Properties.CompileWithoutLoops | src/index.ts:107-136 | markup without loops or bindings compiles to the first placeholder error in document order, or to the serialisation of the tree with every placeholder replaced by its value's text |
| Properties.CompileAfterLoops | src/index.ts:107-136 | parsed markup where no node carries the `vl-attr` marker compiles to the first loop error, or else to the first placeholder error of the tree the loops leave, in document order, or else to the serialisation of that tree with every placeholder replaced by its value |
| Properties.CompilePlainMarkup | src/index.ts:107-136 | markup without directives compiles to the serialisation of its parsed nodes, and the tree is unchanged |
| Engine.TemplateEngine.Init | src/index.ts:41-45 | the engine holds the markup, the parsed tree and the three query results taken on it |
| Engine.TemplateEngine.Create | src/index.ts:30-46 | construction fails, with the validation error, exactly when the rewritten markup is not valid; otherwise the engine holds the rewritten markup, its parse and the three snapshots |
| Engine.TemplateEngine.ReplaceVariableWithValue | src/index.ts:48-62 | the tree becomes the replacement's result on success, and stays unchanged while the error is reported otherwise; markup and snapshots are unchanged |
| Engine.TemplateEngine.ResolveAll | src/index.ts:110-112 | the loop over placeholders leaves the tree and reports the error given by `Resolver.ResolveVars` on the old tree |
| Engine.TemplateEngine.AddCloneFor | src/index.ts:96-103 | one iteration leaves the tree and error of `Resolver.AddClone` on the old tree |
| Engine.TemplateEngine.HandleLoop | src/index.ts:87-105 | the tree and error are those of `Resolver.HandleLoop` on the old tree; markup and snapshots are unchanged |
| Engine.TemplateEngine.RunLoops | src/index.ts:108 | running every snapshot loop in order, stopping at the first error, gives the tree and error of `Resolver.LoopPass` |
| Engine.TemplateEngine.BindNode | src/index.ts:114-134 | one marked node's bindings give the tree and error of `Resolver.BindNode`; no node is added |
| Engine.TemplateEngine.RunBindings | src/index.ts:114-134 | binding every snapshot node in order, stopping at the first error, gives the tree and error of `Resolver.BindPass` |
| Engine.TemplateEngine.Compile | src/index.ts:107-136 | the tree left behind and the string returned or error thrown are those of `Resolver.CompileSpec`: loops, then placeholders, then bindings, then serialisation |
| Engine.TemplateEngine.CompileDefault | src/index.ts:107 | `compile()` behaves as `compile` with the empty context |
| Examples.CompileOneVariable | src/index.ts:107-136 | with one placeholder and no loops or bindings, a successful replacement makes `compile` return the serialised replaced tree |
| Examples.CompileOneVariableFails | src/index.ts:107-136 | with one placeholder and no loops or bindings, the replacement's error is what `compile` throws |
| Examples.CompileOneMarked | src/index.ts:107-136 | with one marked node and nothing else, `compile` fails as its bindings fail, or returns the serialised bound tree |
| Examples.CompileVariable | tests/test.js:39-45 | `<div>{{text}}</div>` with `text` set to `hello` compiles to `<div>hello</div>` |
| Examples.CompileUndefinedVariable | tests/test.js:14-16 | `<div>{{text}}</div>` with the empty context throws "variable `text` not defined" |
| Examples.CompileEmptyVariable | tests/test.js:10-12 | `<div>{{}}</div>` throws the validation error whatever the context |
| Examples.CompileBindings | tests/test.js:47-56 | `<div vl-class="className" vl-id="some-id"></div>` compiles to `<div class="hello" id="root"></div>` |
| Examples.CompileEmptyBinding | tests/test.js:24-26 | `<div vl-class=""></div>` throws the empty-initializer error for `class` whatever the context |
| Examples.CompileUndefinedBinding | tests/test.js:18-22 | `<div vl-class="className"></div>` with the empty context throws "initializer `className` not defined" |
| Examples.CompileList | src/index.ts:87-112 | `<ul><li vl-for="x in xs">{{x}}</li></ul>` with `xs` set to `["a", "b"]` compiles to `<ul><li>a</li><li>b</li></ul>` |
| RewriteExamples.RewriteVariable | src/index.ts:9-13 | `<div>{{text}}</div>` is rewritten to `<div><span vl-variable>text</span></div>` |
| RewriteExamples.NormalizeVariable | src/index.ts:31-33 | the same markup passes the binding rewrite unchanged, so both rewrites give that text |
| RewriteExamples.RewriteEmptyVariable | src/index.ts:9-13 | `<div>{{}}</div>` is rewritten to `<div><span vl-variable></span></div>` |
| RewriteExamples.MarkBindings | src/index.ts:8-17 | in `<div vl-class="className" vl-id="some-id"></div>`, ` vl-attr` is inserted after `vl-class` only |
| RewriteExamples.RunOnMatch | src/index.ts:9 | in `{{a}}</p><p>{{b}}</p>` the pattern captures `a}}</p><p>{{b`, up to the last `}}` |
| RewriteExamples.RunOnPlaceholders | src/index.ts:9-13 | `<p>{{a}}</p><p>{{b}}</p>` is rewritten to `<p><span vl-variable>a}}</p><p>{{b</span></p>` |
| RewriteExamples.SpacedPlaceholders | src/index.ts:9-13 | `<p>{{a}} {{b}}</p>` is rewritten to two spans, one per placeholder |
| RewriteExamples.ForParamsSimple | src/index.ts:66 | `x in xs` yields iterator `x` and source `xs` |
| RewriteExamples.ForParamsUnanchored | src/index.ts:66 | `for x in xs` also yields `x` and `xs`: the search is not anchored |

## Left out

- The HTML parser, its validity check and `toString` belong to the `node-html-parser` library.
  - `parse` is a parameter of `Engine.TemplateEngine.Create`: a function from markup to the parsed top-level nodes.
  - `valid` is a parameter predicate there as well.
  - `Tree.Render` is a serialisation without byte fidelity: an empty attribute value prints as the bare name, and whitespace and entities are untouched.
- Entity decoding in `textContent` is not modelled. A placeholder's name is the concatenated text of its leaves.
- Attribute names are not case-folded, and a list holding one name twice is not normalised. `getAttribute` reads the first match, `removeAttribute` drops all of them, and `setAttribute` updates them in place.
- Context values are strings or arrays of values. Numbers, booleans and objects, and JavaScript's own conversion of them, are left out.
  - `setAttribute` and `toString` take the value's string form (`Values.Stringify`).
  - A key inherited from the object prototype does not count as "in" the context.
- The printed form of `EntityType` lives in `./types`, which is not part of this model. `Errors.Message` therefore takes the label of each entity kind as a parameter.
- `IncorrectForParamsError` and `IncorrectTypeError` are defined outside `src/errors.ts`, which is not part of this model. They carry only their argument; they have no message and no `name`.
- `replaceWith` is given a string. The model inserts one text node and does not parse that string as HTML.
- A node that is detached (by `innerHTML = ''` or `replaceWith`) stays in the store and keeps its old parent link. `replaceWith` on such a node leaves the parent's children as they are (`Tree.ReplaceFirstAbsent`).
- Properties.BindAttrsResult: requires every binding to succeed and no binding's target to start with `vl-`. A target `vl-x` would be removed again by a later binding or by the marker's removal, depending on the order of the attributes.
- Properties.BindNodeResult: carries the same condition on targets, for the same reason.
- Properties.BindNodeClearsDirectives: carries the same condition on targets; a target `vl-x` set after its own binding was removed would stay.
- Normalizer.MatchVariableComplete: states only that the pattern matches and captures at least the shape's identifier. The exact capture is stated by `Normalizer.MatchVariableUnique`, for text with no other `}`.
- RewriteExamples.MarkBindings: splits the test markup into its three pieces in the precondition. It does not state the whole literal in one equation.
- Concurrency is not modelled: the engine is single-threaded and synchronous. The HTTP demo (`docs/api/compile.js`), the browser page (`docs/app.js`), the file-reading test helpers and the jest configuration are outside the core.
