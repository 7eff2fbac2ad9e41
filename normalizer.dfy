/**
 * The directive normaliser: the two string rewrites the engine runs over the
 * markup before parsing it (src/index.ts:8-17). Each is a left-to-right scan
 * that follows its regular expression, backtracking included: at each
 * position the pattern is tried; on a match the replacement is emitted and
 * the scan resumes after the match, otherwise one character is copied.
 */
module Normalizer {
  import opened Wrappers
  import opened Lexical

  // ---------------------------------------------------------------------
  // handleVariables: /{{\s*([^\s]+|)\s*}}/g  ->  <span vl-variable>$1</span>
  // ---------------------------------------------------------------------

  predicate OpensAt(s: string, k: nat)
  {
    k + 2 <= |s| && s[k] == '{' && s[k + 1] == '{'
  }

  predicate ClosesAt(s: string, k: nat)
  {
    k + 2 <= |s| && s[k] == '}' && s[k + 1] == '}'
  }

  /** A match of the variable pattern at the start of `s`: its length and
      the captured identifier. */
  datatype VarMatch = VarMatch(end: nat, id: string)

  /** `s` starts with `{{`, spaces on [2, i), the identifier (no spaces) on
      [i, j), spaces on [j, k) and `}}` at k. */
  ghost predicate VarShape(s: string, i: nat, j: nat, k: nat)
  {
    2 <= i <= j <= k && k + 2 <= |s| && OpensAt(s, 0)
    && SpacesIn(s, 2, i) && NonSpacesIn(s, i, j) && SpacesIn(s, j, k) && ClosesAt(s, k)
  }

  /** The last position k in [lo, hi) with `}}` at k. */
  function LastCloseIn(s: string, lo: nat, hi: nat): (r: Option<nat>)
    ensures r.Some? ==> lo <= r.value < hi && ClosesAt(s, r.value)
    ensures r.Some? ==> forall k :: r.value < k < hi ==> !ClosesAt(s, k)
    ensures r.None? ==> forall k :: lo <= k < hi ==> !ClosesAt(s, k)
    decreases hi
  {
    if hi <= lo then None
    else if ClosesAt(s, hi - 1) then Some(hi - 1)
    else LastCloseIn(s, lo, hi - 1)
  }

  /** The last `}}` in a range is the one with none after it. */
  lemma {:induction false} LastCloseAt(s: string, lo: nat, hi: nat, k: nat)
    requires lo <= k < hi && ClosesAt(s, k)
    requires forall m :: k < m < hi ==> !ClosesAt(s, m)
    ensures LastCloseIn(s, lo, hi) == Some(k)
    decreases hi
  {
    if k < hi - 1 {
      assert !ClosesAt(s, hi - 1);
      LastCloseAt(s, lo, hi - 1, k);
    }
  }

  /** The regular expression tried at the start of `s`. The leading `\s*`
      takes every space; `[^\s]+` first takes the whole non-space run and
      gives back characters until `\s*}}` follows; failing that, the empty
      alternative needs `}}` straight after the spaces. */
  function MatchVariable(s: string): (r: Option<VarMatch>)
    ensures r.Some? ==> 4 <= r.value.end <= |s|
  {
    if !OpensAt(s, 0) then None
    else
      var q := SpaceEnd(s, 2);
      var e := NonSpaceEnd(s, q);
      var w := SpaceEnd(s, e);
      if ClosesAt(s, w) then Some(VarMatch(w + 2, s[q..e]))
      else match LastCloseIn(s, q, e)
        case Some(k) => Some(VarMatch(k + 2, s[q..k]))
        case None => None
  }

  /** Whatever is matched has the pattern's shape and captures its identifier. */
  lemma MatchVariableSound(s: string)
    requires MatchVariable(s).Some?
    ensures var m := MatchVariable(s).value;
      exists i: nat, j: nat, k: nat :: VarShape(s, i, j, k) && m.id == s[i..j] && m.end == k + 2
  {
    var q := SpaceEnd(s, 2);
    var e := NonSpaceEnd(s, q);
    var w := SpaceEnd(s, e);
    if ClosesAt(s, w) {
      assert VarShape(s, q, e, w);
    } else {
      var k := LastCloseIn(s, q, e).value;
      assert VarShape(s, q, k, k);
    }
  }

  /** Wherever the shape is present the pattern matches, and the regex's
      backtracking order makes it capture the longest identifier possible. */
  lemma MatchVariableComplete(s: string, i: nat, j: nat, k: nat)
    requires VarShape(s, i, j, k)
    ensures MatchVariable(s).Some? && j - i <= |MatchVariable(s).value.id|
  {
    var q := SpaceEnd(s, 2);
    var e := NonSpaceEnd(s, q);
    var w := SpaceEnd(s, e);
    if i < j {
      SpaceEndAt(s, 2, i);
      assert e >= j;
      if e == j {
        SpaceEndAt(s, e, k);
      } else {
        assert !IsSpace(s[j]);
        assert k == j;
        assert ClosesAt(s, j);
      }
    } else {
      SpaceEndAt(s, 2, k);
      assert ClosesAt(s, q);
    }
  }

  const SpanOpen: string := "<span vl-variable>"
  const SpanClose: string := "</span>"

  /** The replacement text: a marked inline element around the identifier. */
  function VariableSpan(id: string): string
  {
    SpanOpen + id + SpanClose
  }

  /** `handleVariables` (src/index.ts:11-13). */
  function HandleVariables(s: string): string
    decreases |s|
  {
    if s == [] then []
    else match MatchVariable(s)
      case Some(m) => VariableSpan(m.id) + HandleVariables(s[m.end..])
      case None => [s[0]] + HandleVariables(s[1..])
  }

  /** Markup without `{{` comes back unchanged. */
  lemma {:induction false} HandleVariablesIdentity(s: string)
    requires forall k :: 0 <= k < |s| ==> !OpensAt(s, k)
    ensures HandleVariables(s) == s
    decreases |s|
  {
    if s != [] {
      assert !OpensAt(s, 0);
      assert forall k :: 0 <= k < |s[1..]| ==> !OpensAt(s[1..], k) by {
        forall k | 0 <= k < |s[1..]| ensures !OpensAt(s[1..], k) {
          assert !OpensAt(s, k + 1);
        }
      }
      HandleVariablesIdentity(s[1..]);
    }
  }

  function Placeholder(w1: string, id: string, w2: string): string
  {
    "{{" + w1 + id + w2 + "}}"
  }

  /** Where nothing matches, one character is copied. */
  lemma HandleVariablesCopiesOne(c: char, t: string)
    requires MatchVariable([c] + t).None?
    ensures HandleVariables([c] + t) == [c] + HandleVariables(t)
  {
    assert ([c] + t)[1..] == t;
  }

  /** No match of the variable pattern starts inside pre, in pre + rest. */
  ghost predicate NoVariableIn(pre: string, rest: string)
  {
    forall k :: 0 <= k < |pre| ==> MatchVariable((pre + rest)[k..]).None?
  }

  /** Every match starts with `{`. */
  lemma NoVariableWithoutBrace(pre: string, rest: string)
    requires '{' !in pre
    ensures NoVariableIn(pre, rest)
  {
    forall k | 0 <= k < |pre| ensures MatchVariable((pre + rest)[k..]).None? {
      assert (pre + rest)[k..][0] == pre[k];
      assert pre[k] in pre;
    }
  }

  /** The characters of a prefix where no match starts are copied. */
  lemma {:induction false} HandleVariablesCopiesPrefix(pre: string, rest: string)
    requires NoVariableIn(pre, rest)
    ensures HandleVariables(pre + rest) == pre + HandleVariables(rest)
    decreases |pre|
  {
    if pre != [] {
      SplitFirst(pre, rest);
      assert (pre + rest)[0..] == pre + rest;
      assert NoVariableIn(pre[1..], rest) by {
        forall k | 0 <= k < |pre[1..]| ensures MatchVariable((pre[1..] + rest)[k..]).None? {
          assert (pre[1..] + rest)[k..] == (pre + rest)[k + 1..];
        }
      }
      HandleVariablesCopiesOne(pre[0], pre[1..] + rest);
      HandleVariablesCopiesPrefix(pre[1..], rest);
      ConcatAssoc([pre[0]], pre[1..], HandleVariables(rest));
    } else {
      assert pre + rest == rest;
    }
  }

  /** With no other `}` after the braces, the match is the shape's own. */
  lemma MatchVariableUnique(s: string, i: nat, j: nat, k: nat)
    requires VarShape(s, i, j, k)
    requires forall x :: 2 <= x < |s| && x != k && x != k + 1 ==> s[x] != '}'
    ensures MatchVariable(s) == Some(VarMatch(k + 2, s[i..j]))
  {
    if i == j {
      MatchEmptyId(s, i, j, k);
    } else if NonSpaceEnd(s, i) == j {
      MatchSpacedId(s, i, j, k);
    } else {
      MatchRunOnId(s, i, j, k);
    }
  }

  /** A non-empty identifier whose non-space run ends where it does. */
  lemma MatchSpacedId(s: string, i: nat, j: nat, k: nat)
    requires VarShape(s, i, j, k) && i < j && NonSpaceEnd(s, i) == j
    ensures MatchVariable(s) == Some(VarMatch(k + 2, s[i..j]))
  {
    assert !IsSpace(s[k]);
    SpaceEndAt(s, 2, i);
    SpaceEndAt(s, j, k);
  }

  /** A non-empty identifier whose non-space run goes on past `}}`: the
      greedy capture gives back characters down to the only `}}`. */
  lemma MatchRunOnId(s: string, i: nat, j: nat, k: nat)
    requires VarShape(s, i, j, k) && i < j && NonSpaceEnd(s, i) != j
    requires forall x :: 2 <= x < |s| && x != k && x != k + 1 ==> s[x] != '}'
    ensures MatchVariable(s) == Some(VarMatch(k + 2, s[i..j]))
  {
    assert !IsSpace(s[k]) && !IsSpace(s[k + 1]);
    assert k + 2 < |s| ==> s[k + 2] != '}';
    SpaceEndAt(s, 2, i);
    var e := NonSpaceEnd(s, i);
    assert !IsSpace(s[j]);
    assert k == j;
    assert e >= k + 2;
    assert !ClosesAt(s, SpaceEnd(s, e));
    assert LastCloseIn(s, i, e) == Some(k);
  }

  /** The empty identifier. */
  lemma MatchEmptyId(s: string, i: nat, j: nat, k: nat)
    requires VarShape(s, i, j, k) && i == j
    requires forall x :: 2 <= x < |s| && x != k && x != k + 1 ==> s[x] != '}'
    ensures MatchVariable(s) == Some(VarMatch(k + 2, s[i..j]))
  {
    assert !IsSpace(s[k]) && !IsSpace(s[k + 1]);
    assert k + 2 < |s| ==> s[k + 2] != '}';
    SpaceEndAt(s, 2, k);
    var e := NonSpaceEnd(s, k);
    assert e >= k + 2;
    assert !ClosesAt(s, SpaceEnd(s, e));
    assert LastCloseIn(s, k, e) == Some(k);
    assert MatchVariable(s) == Some(VarMatch(k + 2, s[k..k]));
    assert s[k..k] == s[i..j];
  }

  /** Where the parts of a placeholder lie in its text. */
  lemma PlaceholderParts(w1: string, id: string, w2: string, post: string)
    ensures var s := Placeholder(w1, id, w2) + post;
      var i, j, k := 2 + |w1|, 2 + |w1| + |id|, 2 + |w1| + |id| + |w2|;
      && |s| == k + 2 + |post| && OpensAt(s, 0) && ClosesAt(s, k)
      && (forall x :: 2 <= x < i ==> s[x] == w1[x - 2])
      && (forall x :: i <= x < j ==> s[x] == id[x - i])
      && (forall x :: j <= x < k ==> s[x] == w2[x - j])
      && (forall x :: k + 2 <= x < |s| ==> s[x] == post[x - k - 2])
  {
    var s := Placeholder(w1, id, w2) + post;
    var p1 := "{{" + w1;
    var p2 := p1 + id;
    var p3 := p2 + w2;
    var p4 := p3 + "}}";
    assert s == p4 + post;
    assert forall x :: 0 <= x < |p4| ==> s[x] == p4[x];
    assert forall x :: 0 <= x < |p3| ==> s[x] == p3[x];
    assert forall x :: 0 <= x < |p2| ==> s[x] == p2[x];
  }

  /** What may follow a placeholder that closes right after its identifier
      (or has none): the greedy `[^\s]+` runs on past its `}}` into post,
      and gives back to that `}}` only if the first non-space run of post
      holds no `}` and is not followed, after spaces, by `}}`. */
  predicate EndsCleanly(post: string)
  {
    var r := NonSpaceEnd(post, 0);
    (forall m :: 0 <= m < r ==> post[m] != '}') && !ClosesAt(post, SpaceEnd(post, r))
  }

  /** One placeholder `{{ w1 id w2 }}`, with spaces w1 and w2 around an
      identifier without spaces, becomes a marked span around the trimmed
      identifier, after a prefix where no match starts. */
  lemma HandleVariablesRewritesPlaceholder(pre: string, w1: string, id: string, w2: string, post: string)
    requires NoVariableIn(pre, Placeholder(w1, id, w2) + post)
    requires forall c :: c in w1 + w2 ==> IsSpace(c)
    requires forall c :: c in id ==> !IsSpace(c)
    requires (id != [] && w2 != []) || EndsCleanly(post)
    ensures HandleVariables(pre + (Placeholder(w1, id, w2) + post))
         == pre + (VariableSpan(id) + HandleVariables(post))
  {
    HandleVariablesTakesPlaceholder(w1, id, w2, post);
    HandleVariablesCopiesPrefix(pre, Placeholder(w1, id, w2) + post);
  }

  /** A placeholder at the very start of the text is rewritten. */
  lemma HandleVariablesTakesPlaceholder(w1: string, id: string, w2: string, post: string)
    requires forall c :: c in w1 + w2 ==> IsSpace(c)
    requires forall c :: c in id ==> !IsSpace(c)
    requires (id != [] && w2 != []) || EndsCleanly(post)
    ensures HandleVariables(Placeholder(w1, id, w2) + post) == VariableSpan(id) + HandleVariables(post)
  {
    PlaceholderMatches(w1, id, w2, post);
    HandleVariablesTakesMatch(Placeholder(w1, id, w2) + post, VarMatch(|Placeholder(w1, id, w2)|, id), post);
  }

  /** The pattern matches a placeholder exactly: at once where a space
      separates the identifier from `}}`, and otherwise after giving back
      what the greedy capture took of a post that ends cleanly. */
  lemma PlaceholderMatches(w1: string, id: string, w2: string, post: string)
    requires forall c :: c in w1 + w2 ==> IsSpace(c)
    requires forall c :: c in id ==> !IsSpace(c)
    requires (id != [] && w2 != []) || EndsCleanly(post)
    ensures MatchVariable(Placeholder(w1, id, w2) + post) == Some(VarMatch(|Placeholder(w1, id, w2)|, id))
    ensures (Placeholder(w1, id, w2) + post)[|Placeholder(w1, id, w2)|..] == post
  {
    var s := Placeholder(w1, id, w2) + post;
    var i, j, k := 2 + |w1|, 2 + |w1| + |id|, 2 + |w1| + |id| + |w2|;
    PlaceholderLayout(w1, id, w2, post);
    MatchShape(s, i, j, k, post, id, |Placeholder(w1, id, w2)|);
  }

  /** A text of the pattern's shape matches it exactly, where a space ends
      the identifier or what follows the shape ends cleanly. */
  lemma MatchShape(s: string, i: nat, j: nat, k: nat, post: string, id: string, e: nat)
    requires VarShape(s, i, j, k) && s[k + 2..] == post && s[i..j] == id && e == k + 2
    requires (i < j < k) || EndsCleanly(post)
    ensures MatchVariable(s) == Some(VarMatch(e, id))
  {
    if i < j < k {
      SpaceEndAt(s, 2, i);
      NonSpaceEndAt(s, i, j);
      SpaceEndAt(s, j, k);
    } else if i < j {
      SpaceEndAt(s, 2, i);
      MatchGivesBack(s, i, k, post);
    } else {
      assert !IsSpace(s[k]);
      assert SpacesIn(s, 2, k);
      SpaceEndAt(s, 2, k);
      MatchGivesBack(s, k, k, post);
      assert s[k..k] == s[i..j];
    }
  }

  /** The text of one placeholder followed by `post` has the pattern's
      shape, with the parts where the placeholder puts them. */
  lemma PlaceholderLayout(w1: string, id: string, w2: string, post: string)
    requires forall c :: c in w1 + w2 ==> IsSpace(c)
    requires forall c :: c in id ==> !IsSpace(c)
    ensures var s := Placeholder(w1, id, w2) + post;
      var i, j, k := 2 + |w1|, 2 + |w1| + |id|, 2 + |w1| + |id| + |w2|;
      && VarShape(s, i, j, k) && s[i..j] == id && s[k + 2..] == post && |Placeholder(w1, id, w2)| == k + 2
  {
    var s := Placeholder(w1, id, w2) + post;
    var i, j, k := 2 + |w1|, 2 + |w1| + |id|, 2 + |w1| + |id| + |w2|;
    PlaceholderParts(w1, id, w2, post);
    forall x | 2 <= x < i ensures IsSpace(s[x]) {
      assert w1[x - 2] in w1 + w2;
    }
    forall x | i <= x < j ensures !IsSpace(s[x]) {
      assert id[x - i] in id;
    }
    forall x | j <= x < k ensures IsSpace(s[x]) {
      assert w2[x - j] in w1 + w2;
    }
    assert s[i..j] == id;
    assert s[k + 2..] == post;
  }

  /** The capture starts at q and its non-space run reaches `}}` at k: the
      greedy run goes on through post's first run, finds no `}}` after it,
      and gives back down to k. */
  lemma MatchGivesBack(s: string, q: nat, k: nat, post: string)
    requires OpensAt(s, 0) && 2 <= q <= k && ClosesAt(s, k)
    requires SpaceEnd(s, 2) == q && NonSpacesIn(s, q, k) && s[k + 2..] == post && EndsCleanly(post)
    ensures MatchVariable(s) == Some(VarMatch(k + 2, s[q..k]))
  {
    var r := NonSpaceEnd(post, 0);
    var t := SpaceEnd(post, r);
    var e := k + 2 + r;
    assert forall m :: 0 <= m < |post| ==> s[k + 2 + m] == post[m];
    assert NonSpacesIn(s, q, e) by {
      forall x | q <= x < e ensures !IsSpace(s[x]) {
        if x >= k + 2 { assert s[x] == post[x - k - 2]; }
      }
    }
    NonSpaceEndAt(s, q, e);
    assert SpacesIn(s, e, k + 2 + t) by {
      forall x | e <= x < k + 2 + t ensures IsSpace(s[x]) { assert s[x] == post[x - k - 2]; }
    }
    SpaceEndAt(s, e, k + 2 + t);
    assert !ClosesAt(s, k + 2 + t);
    forall x | k < x < e ensures !ClosesAt(s, x) {
      if x + 1 < |s| { assert s[x + 1] == post[x - k - 1]; }
    }
    assert LastCloseIn(s, q, e) == Some(k);
  }

  /** Where the pattern matches, the span is emitted and the scan resumes
      after the match. */
  lemma HandleVariablesTakesMatch(s: string, m: VarMatch, post: string)
    requires MatchVariable(s) == Some(m) && s[m.end..] == post
    ensures HandleVariables(s) == VariableSpan(m.id) + HandleVariables(post)
  {
  }

  // ---------------------------------------------------------------------
  // handleAttrs: /(\s+vl-\w+=["'](\w+|)["'])/g  ->  $1 vl-attr
  // ---------------------------------------------------------------------

  predicate IsQuote(c: char)
  {
    c == '"' || c == '\''
  }

  predicate PrefixAt(s: string, k: nat)
  {
    k + 3 <= |s| && s[k] == 'v' && s[k + 1] == 'l' && s[k + 2] == '-'
  }

  /** `s` starts with spaces on [0, w), then `vl-`, a name on [w+3, n), `=`,
      a quote, a value on [n+2, v) and a quote at v. */
  ghost predicate AttrShape(s: string, w: nat, n: nat, v: nat)
  {
    0 < w && w + 3 < n && n + 2 <= v < |s|
    && SpacesIn(s, 0, w) && PrefixAt(s, w) && WordsIn(s, w + 3, n)
    && s[n] == '=' && IsQuote(s[n + 1]) && WordsIn(s, n + 2, v) && IsQuote(s[v])
  }

  /** The attribute pattern tried at the start of `s`; it returns the length
      of the match. Every repetition in it is followed by a character outside
      its class, so no backtracking can help and the match is deterministic. */
  function MatchAttr(s: string): (r: Option<nat>)
    ensures r.Some? ==> 0 < r.value <= |s|
  {
    var w := SpaceEnd(s, 0);
    if w == 0 || !PrefixAt(s, w) then None
    else
      var n := WordEnd(s, w + 3);
      if n == w + 3 || n + 2 > |s| || s[n] != '=' || !IsQuote(s[n + 1]) then None
      else
        var v := WordEnd(s, n + 2);
        if v < |s| && IsQuote(s[v]) then Some(v + 1) else None
  }

  /** The pattern matches exactly where the shape is present, and the match
      ends just after the closing quote. */
  lemma MatchAttrSound(s: string)
    requires MatchAttr(s).Some?
    ensures exists w: nat, n: nat, v: nat :: AttrShape(s, w, n, v) && MatchAttr(s).value == v + 1
  {
    var w := SpaceEnd(s, 0);
    var n := WordEnd(s, w + 3);
    var v := WordEnd(s, n + 2);
    assert AttrShape(s, w, n, v);
  }

  lemma MatchAttrComplete(s: string, w: nat, n: nat, v: nat)
    requires AttrShape(s, w, n, v)
    ensures MatchAttr(s) == Some(v + 1)
  {
    SpaceEndAt(s, 0, w);
    WordEndAt(s, w + 3, n);
    WordEndAt(s, n + 2, v);
  }

  const AttrMarker: string := " vl-attr"

  /** `handleAttrs` (src/index.ts:15-17). */
  function HandleAttrs(s: string): string
    decreases |s|
  {
    if s == [] then []
    else match MatchAttr(s)
      case Some(e) => s[..e] + AttrMarker + HandleAttrs(s[e..])
      case None => [s[0]] + HandleAttrs(s[1..])
  }

  /** Where the text after the leading spaces is not `vl-`, nothing matches. */
  lemma MatchAttrNeedsPrefix(s: string)
    requires !PrefixAt(s, SpaceEnd(s, 0))
    ensures MatchAttr(s).None?
  {
  }

  /** Markup without `vl-` comes back unchanged. */
  lemma {:induction false} HandleAttrsIdentity(s: string)
    requires forall k :: 0 <= k < |s| ==> !PrefixAt(s, k)
    ensures HandleAttrs(s) == s
    decreases |s|
  {
    if s != [] {
      var w := SpaceEnd(s, 0);
      assert !PrefixAt(s, w) by {
        if w < |s| { assert !PrefixAt(s, w); }
      }
      MatchAttrNeedsPrefix(s);
      forall k | 0 <= k < |s[1..]| ensures !PrefixAt(s[1..], k) {
        assert !PrefixAt(s, k + 1);
      }
      HandleAttrsIdentity(s[1..]);
    }
  }

  /** Every match starts with a space, so text without spaces comes back
      unchanged. */
  lemma {:induction false} HandleAttrsNoSpace(s: string)
    requires forall k :: 0 <= k < |s| ==> !IsSpace(s[k])
    ensures HandleAttrs(s) == s
    decreases |s|
  {
    if s != [] {
      assert SpaceEnd(s, 0) == 0;
      assert forall k :: 0 <= k < |s[1..]| ==> !IsSpace(s[1..][k]) by {
        forall k | 0 <= k < |s[1..]| ensures !IsSpace(s[1..][k]) { assert s[1..][k] == s[k + 1]; }
      }
      HandleAttrsNoSpace(s[1..]);
    }
  }

  /** An attribute `<spaces>vl-<name>=<q><value><q>` as the pattern
      describes it. */
  ghost predicate IsBindingText(a: string, ws: nat, name: string, value: string)
  {
    0 < ws && name != [] && |a| == ws + 3 + |name| + 3 + |value|
    && SpacesIn(a, 0, ws) && a[ws..ws + 3] == "vl-" && a[ws + 3..ws + 3 + |name|] == name
    && (forall c :: c in name + value ==> IsWord(c))
    && a[ws + 3 + |name|] == '=' && IsQuote(a[ws + 4 + |name|])
    && a[ws + 5 + |name|..|a| - 1] == value && IsQuote(a[|a| - 1])
  }

  /** No match starts on the first character of a text that has no `-`
      before a spaced tail and does not end its prefix in a space. */
  lemma NoMatchInPrefix(pre: string, rest: string)
    requires pre != [] && '-' !in pre && !IsSpace(pre[|pre| - 1])
    requires rest == [] || IsSpace(rest[0])
    ensures MatchAttr(pre + rest).None?
  {
    var s := pre + rest;
    var w := SpaceEnd(s, 0);
    assert s[|pre| - 1] == pre[|pre| - 1];
    assert w < |pre|;
    if w + 2 < |pre| {
      assert s[w + 2] == pre[w + 2];
      assert pre[w + 2] in pre;
    } else if w + 1 == |pre| {
      assert w + 1 < |s| ==> s[w + 1] == rest[0];
    } else {
      assert w + 2 < |s| ==> s[w + 2] == rest[0];
    }
    assert !PrefixAt(s, w);
    MatchAttrNeedsPrefix(s);
  }

  /** Where nothing matches, one character is copied. */
  lemma HandleAttrsCopiesOne(c: char, t: string)
    requires MatchAttr([c] + t).None?
    ensures HandleAttrs([c] + t) == [c] + HandleAttrs(t)
  {
    assert ([c] + t)[1..] == t;
  }

  lemma SplitFirst(pre: string, rest: string)
    requires pre != []
    ensures pre + rest == [pre[0]] + (pre[1..] + rest) && pre == [pre[0]] + pre[1..]
  {
  }

  lemma ConcatAssoc(x: string, y: string, z: string)
    ensures x + (y + z) == (x + y) + z
  {
  }

  /** The tail of a prefix keeps the prefix's property. */
  lemma PrefixTail(pre: string)
    requires pre != [] && '-' !in pre && !IsSpace(pre[|pre| - 1])
    ensures '-' !in pre[1..] && (pre[1..] == [] || !IsSpace(pre[1..][|pre[1..]| - 1]))
  {
    assert forall c :: c in pre[1..] ==> c in pre;
  }

  /** No match of the attribute pattern starts inside pre, in pre + rest. */
  ghost predicate NoBindingIn(pre: string, rest: string)
  {
    forall k :: 0 <= k < |pre| ==> MatchAttr((pre + rest)[k..]).None?
  }

  /** A prefix without `-` that does not end in a space, before text that
      starts with a space, holds no match. */
  lemma {:induction false} NoBindingWithoutDash(pre: string, rest: string)
    requires '-' !in pre && (pre == [] || !IsSpace(pre[|pre| - 1]))
    requires rest == [] || IsSpace(rest[0])
    ensures NoBindingIn(pre, rest)
    decreases |pre|
  {
    if pre != [] {
      NoMatchInPrefix(pre, rest);
      PrefixTail(pre);
      NoBindingWithoutDash(pre[1..], rest);
      forall k | 0 <= k < |pre| ensures MatchAttr((pre + rest)[k..]).None? {
        if k == 0 {
          assert (pre + rest)[0..] == pre + rest;
        } else {
          assert (pre + rest)[k..] == (pre[1..] + rest)[k - 1..];
        }
      }
    }
  }

  /** The characters of a prefix where no match starts are copied. */
  lemma {:induction false} HandleAttrsCopiesPrefix(pre: string, rest: string)
    requires NoBindingIn(pre, rest)
    ensures HandleAttrs(pre + rest) == pre + HandleAttrs(rest)
    decreases |pre|
  {
    if pre == [] {
      assert pre + rest == rest;
    } else {
      assert (pre + rest)[0..] == pre + rest;
      SplitFirst(pre, rest);
      HandleAttrsCopiesOne(pre[0], pre[1..] + rest);
      assert NoBindingIn(pre[1..], rest) by {
        forall k | 0 <= k < |pre[1..]| ensures MatchAttr((pre[1..] + rest)[k..]).None? {
          assert (pre[1..] + rest)[k..] == (pre + rest)[k + 1..];
        }
      }
      HandleAttrsCopiesPrefix(pre[1..], rest);
      ConcatAssoc([pre[0]], pre[1..], HandleAttrs(rest));
    }
  }

  /** The text of a binding followed by `post`, and where its parts lie. */
  lemma BindingLayout(a: string, ws: nat, name: string, value: string, post: string)
    requires IsBindingText(a, ws, name, value)
    ensures var n := ws + 3 + |name|;
      AttrShape(a + post, ws, n, |a| - 1) && (a + post)[..|a|] == a && (a + post)[|a|..] == post
  {
    var s := a + post;
    var n := ws + 3 + |name|;
    var v := |a| - 1;
    assert forall k :: 0 <= k < |a| ==> s[k] == a[k];
    forall k | ws + 3 <= k < n ensures IsWord(s[k]) {
      assert a[k] == name[k - ws - 3];
      assert name[k - ws - 3] in name + value;
    }
    forall k | n + 2 <= k < v ensures IsWord(s[k]) {
      assert a[k] == value[k - n - 2];
      assert value[k - n - 2] in name + value;
    }
    assert a[ws..ws + 3][0] == a[ws];
    assert a[ws..ws + 3][1] == a[ws + 1];
    assert a[ws..ws + 3][2] == a[ws + 2];
    assert AttrShape(s, ws, n, v);
  }

  /** A binding at the very start of the text is marked. */
  lemma HandleAttrsTakesBinding(a: string, ws: nat, name: string, value: string, post: string)
    requires IsBindingText(a, ws, name, value)
    ensures HandleAttrs(a + post) == a + AttrMarker + HandleAttrs(post)
  {
    BindingLayout(a, ws, name, value, post);
    MatchAttrComplete(a + post, ws, ws + 3 + |name|, |a| - 1);
  }

  /** A `vl-<name>="<value>"` attribute gets ` vl-attr` appended right after
      its closing quote; the text around it is kept. */
  lemma HandleAttrsMarksBinding(pre: string, a: string, ws: nat, name: string, value: string, post: string)
    requires NoBindingIn(pre, a + post)
    requires IsBindingText(a, ws, name, value)
    ensures HandleAttrs(pre + (a + post)) == pre + (a + AttrMarker + HandleAttrs(post))
  {
    HandleAttrsTakesBinding(a, ws, name, value, post);
    HandleAttrsCopiesPrefix(pre, a + post);
  }

  /** A match looks no further than its own end. */
  lemma MatchAttrWithin(s: string, e: nat)
    requires MatchAttr(s) == Some(e)
    ensures MatchAttr(s[..e]) == Some(e)
  {
    MatchAttrSound(s);
    var w: nat, n: nat, v: nat :| AttrShape(s, w, n, v) && e == v + 1;
    assert AttrShape(s[..e], w, n, v);
    MatchAttrComplete(s[..e], w, n, v);
  }

  /** How the scan of `handleAttrs` cuts the text: a character copied where
      no match starts, or a match it marks. */
  datatype Piece = Copied(c: char) | Marked(binding: string)

  /** The text the pieces were cut from. */
  function Plain(ps: seq<Piece>): string
  {
    if ps == [] then []
    else (match ps[0] case Copied(c) => [c] case Marked(b) => b) + Plain(ps[1..])
  }

  /** The pieces with the marker after every match. */
  function Emit(ps: seq<Piece>): string
  {
    if ps == [] then []
    else (match ps[0] case Copied(c) => [c] case Marked(b) => b + AttrMarker) + Emit(ps[1..])
  }

  /** The cut the scan makes. Erasing the markers from the output gives
      back the input, and each marked piece is a whole match of the
      pattern on its own. */
  function AttrPieces(s: string): (ps: seq<Piece>)
    ensures Plain(ps) == s && Emit(ps) == HandleAttrs(s)
    ensures forall k :: 0 <= k < |ps| && ps[k].Marked? ==> MatchAttr(ps[k].binding) == Some(|ps[k].binding|)
    decreases |s|
  {
    if s == [] then []
    else match MatchAttr(s)
      case Some(e) =>
        MatchAttrWithin(s, e);
        assert s[..e] + s[e..] == s;
        [Marked(s[..e])] + AttrPieces(s[e..])
      case None =>
        assert [s[0]] + s[1..] == s;
        [Copied(s[0])] + AttrPieces(s[1..])
  }

  /** The whole normalisation the constructor applies (src/index.ts:31-33). */
  function Normalize(markup: string): string
  {
    HandleAttrs(HandleVariables(markup))
  }

  /** Markup with neither `{{` nor `vl-` is left as it is. */
  lemma NormalizeIdentity(s: string)
    requires forall k :: 0 <= k < |s| ==> !OpensAt(s, k) && !PrefixAt(s, k)
    ensures Normalize(s) == s
  {
    HandleVariablesIdentity(s);
    HandleAttrsIdentity(s);
  }
}
