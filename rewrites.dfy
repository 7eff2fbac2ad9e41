/**
 * The two markup rewrites and the loop-parameter search on the markup of the
 * repository's tests (tests/test.js). Each text is a parameter fixed by the
 * precondition; the layout lemmas split a text into the pieces the general
 * lemmas of Normalizer are stated over.
 */
module RewriteExamples {
  import opened Wrappers
  import opened Lexical
  import opened Normalizer
  import opened LoopParams

  // ---------------------------------------------------------------------
  // `{{text}}` (tests/test.js:39-45)
  // ---------------------------------------------------------------------

  lemma VariableLayout(m: string, pre: string, id: string, post: string)
    requires m == "<div>{{text}}</div>" && pre == "<div>" && id == "text" && post == "</div>"
    ensures m == pre + (Placeholder("", id, "") + post)
  {
  }

  lemma SpanLayout(r: string, pre: string, id: string, post: string)
    requires r == "<div><span vl-variable>text</span></div>" && pre == "<div>" && id == "text" && post == "</div>"
    ensures r == pre + (VariableSpan(id) + post)
  {
    var span, tail := "<span vl-variable>text</span>", "<span vl-variable>text</span></div>";
    SpanText(id, span);
    SpanThenClose(span, post, tail);
    DivThenSpan(pre, tail, r);
  }

  lemma SpanThenClose(span: string, post: string, tail: string)
    requires span == "<span vl-variable>text</span>" && post == "</div>" && tail == "<span vl-variable>text</span></div>"
    ensures span + post == tail
  {
  }

  lemma DivThenSpan(pre: string, tail: string, r: string)
    requires pre == "<div>" && tail == "<span vl-variable>text</span></div>" && r == "<div><span vl-variable>text</span></div>"
    ensures pre + tail == r
  {
  }

  lemma SpanText(id: string, t: string)
    requires id == "text" && t == "<span vl-variable>text</span>"
    ensures VariableSpan(id) == t
  {
  }

  /** Text without `{` passes the placeholder rewrite unchanged. */
  lemma ClosingTagKept(post: string)
    requires '{' !in post
    ensures HandleVariables(post) == post
  {
    HandleVariablesIdentity(post);
  }

  /** The markup around the placeholder meets the conditions of the rewrite. */
  lemma DivPieces(pre: string, post: string)
    requires pre == "<div>" && post == "</div>"
    ensures '{' !in pre && '{' !in post && EndsCleanly(post)
  {
    NonSpaceEndAt(post, 0, 6);
  }

  /** The test's identifier holds no space, as the capture requires. */
  lemma TextIdentifier(id: string)
    requires id == "text"
    ensures forall c :: c in id ==> !IsSpace(c)
  {
  }

  /** The placeholder becomes a marked span. */
  lemma RewriteVariable(m: string, r: string)
    requires m == "<div>{{text}}</div>" && r == "<div><span vl-variable>text</span></div>"
    ensures HandleVariables(m) == r
  {
    var pre, id, post := "<div>", "text", "</div>";
    VariableLayout(m, pre, id, post);
    SpanLayout(r, pre, id, post);
    DivPieces(pre, post);
    ClosingTagKept(post);
    TextIdentifier(id);
    NoVariableWithoutBrace(pre, Placeholder("", id, "") + post);
    HandleVariablesRewritesPlaceholder(pre, "", id, "", post);
  }

  lemma SpanSplit(s: string, pre: string, rest: string)
    requires s == "<div><span vl-variable>text</span></div>"
    requires pre == "<div><span" && rest == " vl-variable>text</span></div>"
    ensures s == pre + rest
  {
  }

  lemma SpanPrefix(pre: string)
    requires pre == "<div><span"
    ensures '-' !in pre && !IsSpace(pre[|pre| - 1])
  {
  }

  /** `vl-variable` is followed by `>`, not by `=`. */
  lemma MarkerNotBinding(rest: string)
    requires rest == " vl-variable>text</span></div>"
    ensures MatchAttr(rest).None?
  {
    SpaceEndAt(rest, 0, 1);
    WordEndAt(rest, 4, 12);
  }

  lemma SpanTail(rest: string, tail: string)
    requires rest == " vl-variable>text</span></div>" && tail == "vl-variable>text</span></div>"
    ensures rest == [' '] + tail && forall k :: 0 <= k < |tail| ==> !IsSpace(tail[k])
  {
  }

  /** The attribute rewrite leaves the span alone. */
  lemma SpanAttrsKept(s: string)
    requires s == "<div><span vl-variable>text</span></div>"
    ensures HandleAttrs(s) == s
  {
    var pre, rest, tail := "<div><span", " vl-variable>text</span></div>", "vl-variable>text</span></div>";
    SpanSplit(s, pre, rest);
    SpanPrefix(pre);
    NoBindingWithoutDash(pre, rest);
    HandleAttrsCopiesPrefix(pre, rest);
    MarkerNotBinding(rest);
    SpanTail(rest, tail);
    HandleAttrsCopiesOne(' ', tail);
    HandleAttrsNoSpace(tail);
  }

  /** The whole normalisation of the markup of tests/test.js:39-45. */
  lemma NormalizeVariable(m: string, r: string)
    requires m == "<div>{{text}}</div>" && r == "<div><span vl-variable>text</span></div>"
    ensures Normalize(m) == r
  {
    RewriteVariable(m, r);
    SpanAttrsKept(r);
  }

  // ---------------------------------------------------------------------
  // `{{}}` (tests/test.js:10-12)
  // ---------------------------------------------------------------------

  lemma EmptyVariableLayout(m: string, pre: string, post: string)
    requires m == "<div>{{}}</div>" && pre == "<div>" && post == "</div>"
    ensures m == pre + (Placeholder("", "", "") + post)
  {
  }

  lemma EmptySpanLayout(r: string, pre: string, post: string)
    requires r == "<div><span vl-variable></span></div>" && pre == "<div>" && post == "</div>"
    ensures r == pre + (VariableSpan("") + post)
  {
  }

  /** An empty placeholder becomes an empty span. */
  lemma RewriteEmptyVariable(m: string, r: string)
    requires m == "<div>{{}}</div>" && r == "<div><span vl-variable></span></div>"
    ensures HandleVariables(m) == r
  {
    var pre, post := "<div>", "</div>";
    EmptyVariableLayout(m, pre, post);
    EmptySpanLayout(r, pre, post);
    DivPieces(pre, post);
    ClosingTagKept(post);
    NoVariableWithoutBrace(pre, Placeholder("", "", "") + post);
    HandleVariablesRewritesPlaceholder(pre, "", "", "", post);
  }

  // ---------------------------------------------------------------------
  // Attribute bindings (tests/test.js:47-56)
  // ---------------------------------------------------------------------

  lemma BindingText(a: string, name: string, value: string)
    requires a == " vl-class=\"className\"" && name == "class" && value == "className"
    ensures IsBindingText(a, 1, name, value)
  {
    assert forall k :: 0 <= k < |name + value| ==> IsWord((name + value)[k]);
  }

  lemma TagPrefix(pre: string)
    requires pre == "<div"
    ensures '-' !in pre && !IsSpace(pre[|pre| - 1])
  {
  }

  /** `-` is not a word character, so `vl-id="some-id"` is not a binding. */
  lemma DashedValueNotBinding(post: string)
    requires post == " vl-id=\"some-id\"></div>"
    ensures MatchAttr(post).None?
  {
    SpaceEndAt(post, 0, 1);
    WordEndAt(post, 4, 6);
    WordEndAt(post, 8, 12);
  }

  lemma BindingTail(post: string, tail: string)
    requires post == " vl-id=\"some-id\"></div>" && tail == "vl-id=\"some-id\"></div>"
    ensures post == [' '] + tail && forall k :: 0 <= k < |tail| ==> !IsSpace(tail[k])
  {
  }

  lemma DashedValueKept(post: string)
    requires post == " vl-id=\"some-id\"></div>"
    ensures HandleAttrs(post) == post
  {
    var tail := "vl-id=\"some-id\"></div>";
    DashedValueNotBinding(post);
    BindingTail(post, tail);
    HandleAttrsCopiesOne(' ', tail);
    HandleAttrsNoSpace(tail);
  }

  /** Only `vl-class="className"` gets the marker: the markup is
      `pre + a + post`, the tag, the binding and the rest. */
  lemma MarkBindings(pre: string, a: string, post: string)
    requires pre == "<div" && a == " vl-class=\"className\"" && post == " vl-id=\"some-id\"></div>"
    ensures HandleAttrs(pre + a + post) == pre + a + AttrMarker + post
  {
    BindingText(a, "class", "className");
    TagPrefix(pre);
    assert (a + post)[0] == a[0];
    NoBindingWithoutDash(pre, a + post);
    HandleAttrsMarksBinding(pre, a, 1, "class", "className", post);
    DashedValueKept(post);
    ConcatAssoc(pre, a, post);
    ConcatAssoc(pre, a + AttrMarker, post);
    ConcatAssoc(pre, a, AttrMarker);
  }

  // ---------------------------------------------------------------------
  // Loop parameters (src/index.ts:65)
  // ---------------------------------------------------------------------

  /** `x in xs` names the iterator `x` and the array `xs`. */
  lemma ForParamsSimple(s: string)
    requires s == "x in xs"
    ensures FindForParams(s, 0) == Some(ForParams("x", "xs"))
  {
    assert ForShape(s, 0, 1, 2, 5, 7);
    MatchForAtComplete(s, 0, 1, 2, 5, 7);
    assert s[0..1] == "x" && s[5..7] == "xs";
    FindForParamsIsLeftmost(s, 0, ForParams("x", "xs"));
  }

  /** The search is unanchored: in `for x in xs` the word runs starting at
      `f`, `o` and `r` are not followed by `in`, and the match starts at `x`. */
  lemma ForParamsUnanchored(s: string)
    requires s == "for x in xs"
    ensures FindForParams(s, 0) == Some(ForParams("x", "xs"))
  {
    assert ForShape(s, 4, 5, 6, 9, 11);
    MatchForAtComplete(s, 4, 5, 6, 9, 11);
    assert s[4..5] == "x" && s[9..11] == "xs";
    forall q: nat | q < 4 ensures MatchForAt(s, q).None? {
      if q < 3 {
        WordEndAt(s, q, 3);
        SpaceEndAt(s, 3, 4);
      }
    }
    FindForParamsIsLeftmost(s, 4, ForParams("x", "xs"));
  }

  // ---------------------------------------------------------------------
  // Two placeholders in one run without spaces (src/index.ts:9)
  // ---------------------------------------------------------------------

  /** `[^\s]+` takes the whole run and gives back only to its last `}}`:
      the capture starts in the first placeholder and ends in the second. */
  lemma RunOnMatch(s: string)
    requires s == "{{a}}</p><p>{{b}}</p>"
    ensures MatchVariable(s) == Some(VarMatch(17, "a}}</p><p>{{b"))
  {
    SpaceEndAt(s, 2, 2);
    NonSpaceEndAt(s, 2, 21);
    SpaceEndAt(s, 21, 21);
    RunOnCloses(s);
    LastCloseAt(s, 2, 21, 15);
    RunOnCapture(s);
  }

  /** The last `}}` of the run is the one before the final `</p>`. */
  lemma RunOnCloses(s: string)
    requires s == "{{a}}</p><p>{{b}}</p>"
    ensures !ClosesAt(s, 21) && ClosesAt(s, 15) && forall k :: 15 < k < 21 ==> !ClosesAt(s, k)
  {
  }

  lemma RunOnCapture(s: string)
    requires s == "{{a}}</p><p>{{b}}</p>"
    ensures s[2..15] == "a}}</p><p>{{b"
  {
  }

  lemma RunOnInput(m: string, s: string)
    requires m == "<p>{{a}}</p><p>{{b}}</p>" && s == "{{a}}</p><p>{{b}}</p>"
    ensures m == "<p>" + s && s[17..] == "</p>"
  {
  }

  lemma RunOnPrefix(pre: string, s: string)
    requires pre == "<p>"
    ensures NoVariableIn(pre, s)
  {
    NoVariableWithoutBrace(pre, s);
  }

  /** Two placeholders separated by markup but not by a space become one
      span, `<span vl-variable>a}}</p><p>{{b</span>`, whose identifier runs
      from the first to the second. */
  lemma RunOnPlaceholders(m: string)
    requires m == "<p>{{a}}</p><p>{{b}}</p>"
    ensures HandleVariables(m) == "<p>" + (VariableSpan("a}}</p><p>{{b") + "</p>")
  {
    var pre, s, id, post := "<p>", "{{a}}</p><p>{{b}}</p>", "a}}</p><p>{{b", "</p>";
    RunOnInput(m, s);
    RunOnMatch(s);
    HandleVariablesTakesMatch(s, VarMatch(17, id), post);
    ClosingTagKept(post);
    RunOnPrefix(pre, s);
    HandleVariablesCopiesPrefix(pre, s);
  }

  // ---------------------------------------------------------------------
  // Two placeholders separated by a space (src/index.ts:9-13)
  // ---------------------------------------------------------------------

  lemma SpacedLayout(m: string, tail: string)
    requires m == "<p>{{a}} {{b}}</p>" && tail == " {{b}}</p>"
    ensures m == "<p>" + (Placeholder("", "a", "") + tail)
    ensures tail == " " + (Placeholder("", "b", "") + "</p>")
  {
  }

  /** The space after the first placeholder stops the greedy capture, and
      the text after the second holds no `}`. */
  lemma SpacedPieces(tail: string)
    requires tail == " {{b}}</p>"
    ensures EndsCleanly(tail) && EndsCleanly("</p>")
    ensures forall c :: c in "a" ==> !IsSpace(c)
    ensures forall c :: c in "b" ==> !IsSpace(c)
  {
    NonSpaceEndAt(tail, 0, 0);
    SpaceEndAt(tail, 0, 1);
    NonSpaceEndAt("</p>", 0, 4);
  }

  /** `<p>{{a}} {{b}}</p>`: each placeholder becomes its own span. */
  lemma SpacedPlaceholders(m: string)
    requires m == "<p>{{a}} {{b}}</p>"
    ensures HandleVariables(m) == "<p>" + (VariableSpan("a") + (" " + (VariableSpan("b") + "</p>")))
  {
    var tail := " {{b}}</p>";
    SpacedLayout(m, tail);
    SpacedPieces(tail);
    NoVariableWithoutBrace("<p>", Placeholder("", "a", "") + tail);
    HandleVariablesRewritesPlaceholder("<p>", "", "a", "", tail);
    NoVariableWithoutBrace(" ", Placeholder("", "b", "") + "</p>");
    HandleVariablesRewritesPlaceholder(" ", "", "b", "", "</p>");
    ClosingTagKept("</p>");
  }
}
