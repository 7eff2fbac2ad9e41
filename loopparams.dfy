/**
 * `parseLoop` (src/index.ts:64-85): the `vl-for` value is searched for
 * `<iterator> in <source>` with an unanchored regular expression, then the
 * source is looked up in the context and must hold an array.
 */
module LoopParams {
  import opened Wrappers
  import opened Lexical
  import opened Values
  import opened Errors

  /** The two captures of `/([_\w\d]+)\s+in\s+([_\w\d]+)/`. */
  datatype ForParams = ForParams(iteratorVar: string, source: string)

  /** `s` holds, from position p: a word on [p, e1), spaces on [e1, e2),
      `in` at e2, spaces on [e2+2, e3) and a word on [e3, e4). The runs are
      maximal, as the greedy quantifiers take them. */
  ghost predicate ForShape(s: string, p: nat, e1: nat, e2: nat, e3: nat, e4: nat)
  {
    p < e1 < e2 && e2 + 2 < e3 < e4 <= |s|
    && WordsIn(s, p, e1) && SpacesIn(s, e1, e2) && s[e2] == 'i' && s[e2 + 1] == 'n'
    && SpacesIn(s, e2 + 2, e3) && WordsIn(s, e3, e4) && (e4 < |s| ==> !IsWord(s[e4]))
  }

  /** The pattern tried at position p. The word before `\s+` must be the
      whole word run (a shorter one is followed by a word character), the
      spaces must be the whole run (`in` does not start with a space), and
      the last word is taken greedily. */
  function MatchForAt(s: string, p: nat): (r: Option<ForParams>)
    requires p <= |s|
  {
    var e1 := WordEnd(s, p);
    var e2 := SpaceEnd(s, e1);
    if e1 == p || e2 == e1 || e2 + 2 > |s| || s[e2] != 'i' || s[e2 + 1] != 'n' then None
    else
      var e3 := SpaceEnd(s, e2 + 2);
      var e4 := WordEnd(s, e3);
      if e3 == e2 + 2 || e4 == e3 then None
      else Some(ForParams(s[p..e1], s[e3..e4]))
  }

  lemma MatchForAtSound(s: string, p: nat)
    requires p <= |s| && MatchForAt(s, p).Some?
    ensures exists e1: nat, e2: nat, e3: nat, e4: nat ::
      ForShape(s, p, e1, e2, e3, e4) && MatchForAt(s, p) == Some(ForParams(s[p..e1], s[e3..e4]))
  {
    var e1 := WordEnd(s, p);
    var e2 := SpaceEnd(s, e1);
    var e3 := SpaceEnd(s, e2 + 2);
    var e4 := WordEnd(s, e3);
    assert ForShape(s, p, e1, e2, e3, e4);
  }

  lemma MatchForAtComplete(s: string, p: nat, e1: nat, e2: nat, e3: nat, e4: nat)
    requires ForShape(s, p, e1, e2, e3, e4)
    ensures MatchForAt(s, p) == Some(ForParams(s[p..e1], s[e3..e4]))
  {
    assert !IsWord(s[e1]);
    WordEndAt(s, p, e1);
    assert !IsSpace(s[e2]);
    SpaceEndAt(s, e1, e2);
    assert !IsSpace(s[e3]);
    SpaceEndAt(s, e2 + 2, e3);
    WordEndAt(s, e3, e4);
  }

  /** `String.prototype.match` without the `g` flag: the match at the
      leftmost position where the pattern matches, searching from `from`. */
  function FindForParams(s: string, from: nat): Option<ForParams>
    requires from <= |s|
    decreases |s| - from
  {
    match MatchForAt(s, from)
    case Some(m) => Some(m)
    case None => if from == |s| then None else FindForParams(s, from + 1)
  }

  ghost predicate NoMatchBetween(s: string, from: nat, p: nat)
  {
    forall q: nat :: from <= q < p && q <= |s| ==> MatchForAt(s, q).None?
  }

  /** The match `String.prototype.match` reports: the one at the leftmost
      position where the pattern matches. */
  ghost predicate LeftmostMatch(s: string, p: nat, fp: ForParams)
  {
    p <= |s| && MatchForAt(s, p) == Some(fp) && NoMatchBetween(s, 0, p)
  }

  /** The search finds nothing exactly when no position from `from` on matches. */
  lemma {:induction false} FindForParamsNone(s: string, from: nat)
    requires from <= |s|
    ensures FindForParams(s, from).None? <==> forall p: nat :: from <= p <= |s| ==> MatchForAt(s, p).None?
    decreases |s| - from
  {
    if MatchForAt(s, from).None? && from < |s| {
      FindForParamsNone(s, from + 1);
    }
  }

  /** What the search finds is the match at a position with no match before it. */
  lemma {:induction false} FindForParamsSound(s: string, from: nat)
    requires from <= |s| && FindForParams(s, from).Some?
    ensures exists p: nat :: from <= p <= |s| && MatchForAt(s, p) == FindForParams(s, from) && NoMatchBetween(s, from, p)
    decreases |s| - from
  {
    if MatchForAt(s, from).Some? {
      assert NoMatchBetween(s, from, from);
    } else {
      FindForParamsSound(s, from + 1);
      var p: nat :| from + 1 <= p <= |s| && MatchForAt(s, p) == FindForParams(s, from + 1) && NoMatchBetween(s, from + 1, p);
      assert NoMatchBetween(s, from, p);
    }
  }

  /** The search returns the match at the first matching position. */
  lemma {:induction false} FindForParamsFrom(s: string, from: nat, p: nat, fp: ForParams)
    requires from <= p <= |s| && MatchForAt(s, p) == Some(fp) && NoMatchBetween(s, from, p)
    ensures FindForParams(s, from) == Some(fp)
    decreases p - from
  {
    if from < p {
      assert MatchForAt(s, from).None?;
      FindForParamsFrom(s, from + 1, p, fp);
    }
  }

  lemma FindForParamsIsLeftmost(s: string, p: nat, fp: ForParams)
    requires LeftmostMatch(s, p, fp)
    ensures FindForParams(s, 0) == Some(fp)
  {
    FindForParamsFrom(s, 0, p, fp);
  }

  /** The parameters of a loop: the array items to iterate and the iterator name. */
  datatype Loop = Loop(items: seq<Value>, iteratorVar: string)

  /** `parseLoop`: `raw` is the `vl-for` attribute, None where it is absent.
      The checks run in the order of the source and the first failing one
      decides the error. */
  function ParseLoop(raw: Option<string>, ctx: Ctx): (r: Result<Loop>)
    ensures r.Err? && r.error.IncorrectForParams? ==> r.error.raw == raw
    ensures r.Ok? ==> raw.Some? && exists x :: x in ctx && ctx[x] == Arr(r.value.items)
  {
    if raw.None? then Err(IncorrectForParams(raw))
    else match FindForParams(raw.value, 0)
      case None => Err(IncorrectForParams(raw))
      case Some(ForParams(iteratorVar, source)) =>
        if source !in ctx then Err(NotDefined(Variable, source))
        else if !ctx[source].Arr? then Err(IncorrectType(source))
        else Ok(Loop(ctx[source].items, iteratorVar))
  }

  /** The parameters are rejected exactly when the attribute is absent or
      no position of it matches the pattern. */
  lemma ParseLoopRejectsParams(raw: Option<string>, ctx: Ctx)
    ensures ParseLoop(raw, ctx) == Err(IncorrectForParams(raw))
        <==> raw.None? || forall p: nat :: p <= |raw.value| ==> MatchForAt(raw.value, p).None?
  {
    if raw.Some? {
      FindForParamsNone(raw.value, 0);
    }
  }

  /** Once the parameters match, the source is looked up before its type is
      checked, and the iterator is the first capture of the leftmost match. */
  lemma ParseLoopChecksInOrder(raw: string, ctx: Ctx, p: nat, fp: ForParams)
    requires LeftmostMatch(raw, p, fp)
    ensures fp.source !in ctx ==> ParseLoop(Some(raw), ctx) == Err(NotDefined(Variable, fp.source))
    ensures fp.source in ctx && !ctx[fp.source].Arr? ==> ParseLoop(Some(raw), ctx) == Err(IncorrectType(fp.source))
    ensures fp.source in ctx && ctx[fp.source].Arr? ==>
      ParseLoop(Some(raw), ctx) == Ok(Loop(ctx[fp.source].items, fp.iteratorVar))
  {
    FindForParamsIsLeftmost(raw, p, fp);
  }
}
