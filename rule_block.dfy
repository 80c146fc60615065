/** The CSS rule-block patcher shared by both scripts: the pattern
    `re.escape(selector) + r"\s*\{.*?\}"` compiled with DOTALL, its `search`
    and its `sub` (replace-all, leftmost-first, non-overlapping). */
module RuleBlock {

  datatype Option<T> = None | Some(value: T)

  /** Python's `\s` on a str pattern: the characters for which `str.isspace()` holds. */
  predicate IsSpace(c: char) {
    ('\t' <= c <= '\r') || ('\U{1C}' <= c <= ' ') || c == '\U{85}' || c == '\U{A0}'
    || c == '\U{1680}' || ('\U{2000}' <= c <= '\U{200A}') || c == '\U{2028}' || c == '\U{2029}'
    || c == '\U{202F}' || c == '\U{205F}' || c == '\U{3000}'
  }

  /** The replacement is inserted verbatim only when it holds no backslash
      (otherwise `re.sub` expands it as a template). */
  predicate NoBackslash(s: string) {
    '\\' !in s
  }

  /** The escaped selector: its characters compared one for one, no metacharacters. */
  predicate LiteralAt(doc: string, sel: string, i: nat)
    decreases |sel|
  {
    i + |sel| <= |doc| && (sel == [] || (doc[i] == sel[0] && LiteralAt(doc, sel[1..], i + 1)))
  }

  /** Comparing character by character is comparing the slice with the selector. */
  lemma {:induction false} LiteralAtSlice(doc: string, sel: string, i: nat)
    ensures LiteralAt(doc, sel, i) <==> i + |sel| <= |doc| && doc[i..i + |sel|] == sel
    decreases |sel|
  {
    if sel != [] && i + |sel| <= |doc| {
      LiteralAtSlice(doc, sel[1..], i + 1);
      assert doc[i..i + |sel|] == [doc[i]] + doc[i + 1..i + |sel|];
      assert sel == [sel[0]] + sel[1..];
    }
  }

  /** Greedy `\s*` from position j: the end of the whitespace run. */
  function SkipSpace(doc: string, j: nat): (k: nat)
    requires j <= |doc|
    ensures j <= k <= |doc|
    ensures k == |doc| || !IsSpace(doc[k])
    decreases |doc| - j
  {
    if j < |doc| && IsSpace(doc[j]) then SkipSpace(doc, j + 1) else j
  }

  /** Everything SkipSpace skips is whitespace. */
  lemma {:induction false} SkipSpaceSpaces(doc: string, j: nat)
    requires j <= |doc|
    ensures forall m :: j <= m < SkipSpace(doc, j) ==> IsSpace(doc[m])
    decreases |doc| - j
  {
    if j < |doc| && IsSpace(doc[j]) {
      SkipSpaceSpaces(doc, j + 1);
    }
  }

  /** Lazy `.*?\}` from position j: the first closing brace at or after j. */
  function FirstClose(doc: string, j: nat): (r: Option<nat>)
    requires j <= |doc|
    ensures r.Some? ==> j <= r.value < |doc| && doc[r.value] == '}'
    decreases |doc| - j
  {
    if j == |doc| then None
    else if doc[j] == '}' then Some(j)
    else FirstClose(doc, j + 1)
  }

  /** The brace FirstClose finds is the first one: none comes before it, and there is
      none at all when it finds nothing. */
  lemma {:induction false} FirstCloseFirst(doc: string, j: nat)
    requires j <= |doc|
    ensures FirstClose(doc, j).Some? ==> forall m :: j <= m < FirstClose(doc, j).value ==> doc[m] != '}'
    ensures FirstClose(doc, j).None? ==> forall m :: j <= m < |doc| ==> doc[m] != '}'
    decreases |doc| - j
  {
    if j < |doc| && doc[j] != '}' {
      FirstCloseFirst(doc, j + 1);
    }
  }

  /** The pattern tried at position i: the end (exclusive) of the match the
      backtracking engine returns there, or None. */
  function MatchAt(doc: string, sel: string, i: nat): (r: Option<nat>)
    requires i <= |doc|
    ensures r.Some? ==> i + |sel| + 2 <= r.value <= |doc|
    ensures r.Some? ==> LiteralAt(doc, sel, i) && doc[r.value - 1] == '}'
  {
    if !LiteralAt(doc, sel, i) then None else BlockAfter(doc, i + |sel|)
  }

  /** `\s*\{.*?\}` tried at position j: the end (exclusive) of its match, or None. */
  function BlockAfter(doc: string, j: nat): (r: Option<nat>)
    requires j <= |doc|
    ensures r.Some? ==> j + 2 <= r.value <= |doc| && doc[r.value - 1] == '}'
  {
    var b := SkipSpace(doc, j);
    if b == |doc| || doc[b] != '{' then None
    else
      match FirstClose(doc, b + 1)
      case None => None
      case Some(c) => Some(c + 1)
  }

  /** Reference semantics: doc[i..e] is a word of the regular language
      sel \s* \{ .* \} (DOTALL), with no regard to greediness or laziness. */
  ghost predicate InPattern(doc: string, sel: string, i: nat, e: nat) {
    i + |sel| < e <= |doc| && doc[i..i + |sel|] == sel && doc[e - 1] == '}'
    && exists k :: i + |sel| <= k < e - 1 && doc[k] == '{'
                   && (forall m :: i + |sel| <= m < k ==> IsSpace(doc[m]))
  }

  /** The engine's match at i is the shortest word of the language starting at i,
      and there is none exactly when no word of the language starts at i. */
  lemma MatchAtSpec(doc: string, sel: string, i: nat)
    requires i <= |doc|
    ensures MatchAt(doc, sel, i).Some? ==> InPattern(doc, sel, i, MatchAt(doc, sel, i).value)
    ensures forall e: nat :: InPattern(doc, sel, i, e) ==>
              MatchAt(doc, sel, i).Some? && MatchAt(doc, sel, i).value <= e
  {
    var r := MatchAt(doc, sel, i);
    LiteralAtSlice(doc, sel, i);
    if i + |sel| <= |doc| {
      SkipSpaceSpaces(doc, i + |sel|);
    }
    if r.Some? {
      var b := SkipSpace(doc, i + |sel|);
      assert doc[b] == '{';
      assert InPattern(doc, sel, i, r.value);
    }
    forall e: nat | InPattern(doc, sel, i, e)
      ensures r.Some? && r.value <= e
    {
      var k :| i + |sel| <= k < e - 1 && doc[k] == '{'
               && (forall m :: i + |sel| <= m < k ==> IsSpace(doc[m]));
      var b := SkipSpace(doc, i + |sel|);
      assert !IsSpace('{');
      assert k == b;
      var fc := FirstClose(doc, b + 1);
      FirstCloseFirst(doc, b + 1);
      assert doc[e - 1] == '}';
      assert fc.Some? && fc.value <= e - 1;
    }
  }

  /** `pattern.search` from position `from`: start positions are tried left to right. */
  function FindMatch(doc: string, sel: string, from: nat): (r: Option<(nat, nat)>)
    requires from <= |doc|
    ensures r.Some? ==> from <= r.value.0 < r.value.1 <= |doc|
    decreases |doc| - from
  {
    match MatchAt(doc, sel, from)
    case Some(e) => Some((from, e))
    case None => if from == |doc| then None else FindMatch(doc, sel, from + 1)
  }

  /** The search returns the engine's match at the position it reports, and it is
      leftmost: no match starts between `from` and that position, and none starts
      anywhere from `from` on when it returns nothing. */
  lemma {:induction false} FindMatchSpec(doc: string, sel: string, from: nat)
    requires from <= |doc|
    ensures FindMatch(doc, sel, from).Some? ==>
              MatchAt(doc, sel, FindMatch(doc, sel, from).value.0) == Some(FindMatch(doc, sel, from).value.1)
    ensures FindMatch(doc, sel, from).Some? ==>
              forall p :: from <= p < FindMatch(doc, sel, from).value.0 ==> MatchAt(doc, sel, p).None?
    ensures FindMatch(doc, sel, from).None? ==>
              forall p :: from <= p <= |doc| ==> MatchAt(doc, sel, p).None?
    decreases |doc| - from
  {
    if MatchAt(doc, sel, from).None? && from < |doc| {
      FindMatchSpec(doc, sel, from + 1);
    }
  }

  /** The truth value of `pattern.search(doc)`. */
  predicate HasMatch(doc: string, sel: string) {
    FindMatch(doc, sel, 0).Some?
  }

  /** `pattern.sub(repl, doc)` on doc[from..]: every match found leftmost-first
      is replaced and the search resumes at its end. */
  function SubAll(doc: string, sel: string, repl: string, from: nat): string
    requires from <= |doc|
    decreases |doc| - from
  {
    match FindMatch(doc, sel, from)
    case None => doc[from..]
    case Some((s, e)) => doc[from..s] + repl + SubAll(doc, sel, repl, e)
  }

  /** `pattern.sub(repl, doc)` for a replacement that re.sub inserts verbatim. */
  function Substitute(doc: string, sel: string, repl: string): string
    requires NoBackslash(repl)
  {
    SubAll(doc, sel, repl, 0)
  }

  /** A replacement that is itself one complete rule block for the selector. */
  predicate IsRuleBlock(block: string, sel: string) {
    MatchAt(block, sel, 0) == Some(|block|)
  }

  // ---------------------------------------------------------------------------
  // search

  /** `search` succeeds exactly when some word of the pattern's language occurs in doc. */
  lemma HasMatchIff(doc: string, sel: string)
    ensures HasMatch(doc, sel) <==> exists i: nat, e: nat :: i <= |doc| && InPattern(doc, sel, i, e)
  {
    FindMatchSpec(doc, sel, 0);
    match FindMatch(doc, sel, 0)
    case Some((s, e)) =>
      MatchAtSpec(doc, sel, s);
      assert InPattern(doc, sel, s, e);
    case None =>
      forall i: nat, e: nat | i <= |doc|
        ensures !InPattern(doc, sel, i, e)
      {
        MatchAtSpec(doc, sel, i);
      }
  }

  /** The leftmost match: a search that returns (s, e) found no word of the language
      starting before s, and (s, e) is the shortest word starting at s. */
  lemma FindMatchLeftmostShortest(doc: string, sel: string, from: nat)
    requires from <= |doc|
    ensures FindMatch(doc, sel, from).Some? ==>
              var (s, e) := FindMatch(doc, sel, from).value;
              InPattern(doc, sel, s, e)
              && (forall e': nat :: InPattern(doc, sel, s, e') ==> e <= e')
              && (forall p: nat, e': nat :: from <= p < s ==> !InPattern(doc, sel, p, e'))
    ensures FindMatch(doc, sel, from).None? ==>
              forall p: nat, e': nat :: from <= p <= |doc| ==> !InPattern(doc, sel, p, e')
  {
    FindMatchSpec(doc, sel, from);
    match FindMatch(doc, sel, from)
    case Some((s, e)) =>
      MatchAtSpec(doc, sel, s);
      forall p: nat, e': nat | from <= p < s
        ensures !InPattern(doc, sel, p, e')
      {
        MatchAtSpec(doc, sel, p);
      }
    case None =>
      forall p: nat, e': nat | from <= p <= |doc|
        ensures !InPattern(doc, sel, p, e')
      {
        MatchAtSpec(doc, sel, p);
      }
  }

  /** Conversely, a match at s with none in [from, s) is what the search returns. */
  lemma {:induction false} FindMatchIs(doc: string, sel: string, from: nat, s: nat, e: nat)
    requires from <= s <= |doc|
    requires MatchAt(doc, sel, s) == Some(e)
    requires forall p :: from <= p < s ==> MatchAt(doc, sel, p).None?
    ensures FindMatch(doc, sel, from) == Some((s, e))
    decreases s - from
  {
    if from < s {
      FindMatchIs(doc, sel, from + 1, s, e);
    }
  }

  /** Selector characters such as `.`, `#` and `*` are matched literally:
      the regex reading of ".a#b*" would accept "xa#bb{}", the escaped one does not. */
  lemma MetacharactersAreLiteral()
    ensures !HasMatch("xa#bb{}", ".a#b*")
    ensures HasMatch(".a#b* {}", ".a#b*")
  {
    var doc, sel := "xa#bb{}", ".a#b*";
    forall p | 0 <= p <= |doc|
      ensures MatchAt(doc, sel, p).None?
    {
      if p + |sel| <= |doc| {
        assert doc[p..p + |sel|][0] == doc[p] != '.';
      }
    }
    var doc2 := ".a#b* {}";
    assert LiteralAt(doc2, sel, 0);
    assert SkipSpace(doc2, 6) == 6;
    assert SkipSpace(doc2, 5) == 6;
    assert FirstClose(doc2, 7) == Some(7);
    FindMatchIs(doc2, sel, 0, 0, 8);
  }

  // ---------------------------------------------------------------------------
  // substitution

  /** No match anywhere: `sub` returns the document unchanged. */
  lemma NoMatchUnchanged(doc: string, sel: string, repl: string)
    requires NoBackslash(repl)
    requires forall i: nat, e: nat :: i <= |doc| ==> !InPattern(doc, sel, i, e)
    ensures !HasMatch(doc, sel)
    ensures Substitute(doc, sel, repl) == doc
  {
    HasMatchIff(doc, sel);
    assert doc[0..] == doc;
  }

  /** The text before the first match is an unchanged prefix of the output, followed
      by the replacement; with exactly one match the output is prefix + repl + suffix. */
  lemma FirstMatchPrefix(doc: string, sel: string, repl: string, s: nat, e: nat)
    requires NoBackslash(repl)
    requires FindMatch(doc, sel, 0) == Some((s, e))
    ensures Substitute(doc, sel, repl) == doc[..s] + repl + SubAll(doc, sel, repl, e)
    ensures Substitute(doc, sel, repl)[..s] == doc[..s]
    ensures FindMatch(doc, sel, e).None? ==> Substitute(doc, sel, repl) == doc[..s] + repl + doc[e..]
  {
    assert doc[0..s] == doc[..s];
    var out := Substitute(doc, sel, repl);
    assert out[..s] == (doc[..s] + (repl + SubAll(doc, sel, repl, e)))[..s];
  }

  /** The replace-all behaviour: two successive rule blocks are both replaced. */
  lemma ReplacesEveryMatch()
    ensures Substitute("a{}a{}", "a", "b") == "bb"
  {
    var doc := "a{}a{}";
    assert LiteralAt(doc, "a", 0) && LiteralAt(doc, "a", 3);
    assert SkipSpace(doc, 1) == 1 && SkipSpace(doc, 4) == 4;
    assert FirstClose(doc, 2) == Some(2) && FirstClose(doc, 5) == Some(5);
    assert FindMatch(doc, "a", 0) == Some((0, 3));
    assert FindMatch(doc, "a", 3) == Some((3, 6));
    assert FindMatch(doc, "a", 6) == None;
    assert SubAll(doc, "a", "b", 6) == "";
  }

  /** Ordered, non-overlapping spans inside doc[from..]. */
  predicate Ordered(doc: string, from: nat, spans: seq<(nat, nat)>) {
    (forall k :: 0 <= k < |spans| ==> from <= spans[k].0 <= spans[k].1 <= |doc|)
    && (forall k, l :: 0 <= k < l < |spans| ==> spans[k].1 <= spans[l].0)
  }

  /** No match of the pattern starts at a position in [a, b). */
  ghost predicate NoMatchIn(doc: string, sel: string, a: nat, b: nat) {
    forall p :: a <= p < b && p <= |doc| ==> MatchAt(doc, sel, p).None?
  }

  /** The spans that `sub` replaces, in order: each one is the engine's match at its
      start and they do not overlap. */
  function Spans(doc: string, sel: string, from: nat): (r: seq<(nat, nat)>)
    requires from <= |doc|
    ensures Ordered(doc, from, r)
    ensures forall k :: 0 <= k < |r| ==> MatchAt(doc, sel, r[k].0) == Some(r[k].1)
    decreases |doc| - from
  {
    FindMatchSpec(doc, sel, from);
    match FindMatch(doc, sel, from)
    case None => []
    case Some((s, e)) =>
      var t := Spans(doc, sel, e);
      SpansCons(doc, sel, from, s, e, t);
      [(s, e)] + t
  }

  lemma SpansCons(doc: string, sel: string, from: nat, s: nat, e: nat, t: seq<(nat, nat)>)
    requires from <= s <= e <= |doc| && MatchAt(doc, sel, s) == Some(e)
    requires Ordered(doc, e, t) && forall k :: 0 <= k < |t| ==> MatchAt(doc, sel, t[k].0) == Some(t[k].1)
    ensures Ordered(doc, from, [(s, e)] + t)
    ensures forall k :: 0 <= k < |t| + 1 ==> MatchAt(doc, sel, ([(s, e)] + t)[k].0) == Some(([(s, e)] + t)[k].1)
  {
    var r := [(s, e)] + t;
    assert forall k :: 1 <= k < |r| ==> r[k] == t[k - 1];
  }

  /** The end of the gap that follows span k (or that precedes the first span,
      for k = -1): the next span's start, or past the end of the text. */
  function GapEnd(doc: string, spans: seq<(nat, nat)>, k: int): nat
    requires -1 <= k < |spans|
  {
    if k + 1 < |spans| then spans[k + 1].0 else |doc| + 1
  }

  /** No match starts before the first span. */
  lemma SpansFirstGap(doc: string, sel: string, from: nat)
    requires from <= |doc|
    ensures NoMatchIn(doc, sel, from, GapEnd(doc, Spans(doc, sel, from), -1))
  {
    FindMatchSpec(doc, sel, from);
  }

  /** No match starts in the gap after span k. */
  lemma {:induction false} SpansGap(doc: string, sel: string, from: nat, k: nat)
    requires from <= |doc| && k < |Spans(doc, sel, from)|
    ensures var r := Spans(doc, sel, from); NoMatchIn(doc, sel, r[k].1, GapEnd(doc, r, k))
    decreases k
  {
    var r := Spans(doc, sel, from);
    var (s, e) := FindMatch(doc, sel, from).value;
    var t := Spans(doc, sel, e);
    assert r == [(s, e)] + t;
    if k == 0 {
      SpansFirstGap(doc, sel, e);
    } else {
      SpansGap(doc, sel, e, k - 1);
    }
  }

  /** No match starts in any gap of Spans: before the first span, between two spans,
      or after the last one; so the spans are all the matches a left-to-right scan meets. */
  lemma SpansGaps(doc: string, sel: string, from: nat)
    requires from <= |doc|
    ensures var r := Spans(doc, sel, from);
            NoMatchIn(doc, sel, from, GapEnd(doc, r, -1))
            && forall k :: 0 <= k < |r| ==> NoMatchIn(doc, sel, r[k].1, GapEnd(doc, r, k))
  {
    SpansFirstGap(doc, sel, from);
    forall k | 0 <= k < |Spans(doc, sel, from)|
      ensures NoMatchIn(doc, sel, Spans(doc, sel, from)[k].1, GapEnd(doc, Spans(doc, sel, from), k))
    {
      SpansGap(doc, sel, from, k);
    }
  }
  /** Independent of matching: copy the gaps between the spans, put repl in each span. */
  function Rebuild(doc: string, from: nat, spans: seq<(nat, nat)>, repl: string): string
    requires from <= |doc| && Ordered(doc, from, spans)
    decreases |spans|
  {
    if spans == [] then doc[from..]
    else doc[from..spans[0].0] + repl + Rebuild(doc, spans[0].1, spans[1..], repl)
  }

  /** `sub` replaces exactly the spans of Spans and copies every other character unchanged. */
  lemma {:induction false} SubAllShape(doc: string, sel: string, repl: string, from: nat)
    requires from <= |doc|
    ensures SubAll(doc, sel, repl, from) == Rebuild(doc, from, Spans(doc, sel, from), repl)
    decreases |doc| - from
  {
    match FindMatch(doc, sel, from)
    case None =>
    case Some((s, e)) =>
      var r := Spans(doc, sel, from);
      assert r[1..] == Spans(doc, sel, e);
      SubAllShape(doc, sel, repl, e);
  }

  // ---------------------------------------------------------------------------
  // the pattern looks only forward: shifting the text moves every match with it

  /** x from p on and y from q on are the same text (defined character by character,
      so that the verifier unfolds it only as far as a proof walks). */
  ghost predicate SameFrom(x: string, p: nat, y: string, q: nat)
    decreases |x| - p
  {
    p <= |x| && q <= |y| && |x| - p == |y| - q
    && (p == |x| || (x[p] == y[q] && SameFrom(x, p + 1, y, q + 1)))
  }

  lemma {:induction false} SameFromAdvance(x: string, p: nat, y: string, q: nat, n: nat)
    requires SameFrom(x, p, y, q) && p + n <= |x|
    ensures SameFrom(x, p + n, y, q + n)
    decreases n
  {
    if n > 0 {
      SameFromAdvance(x, p + 1, y, q + 1, n - 1);
    }
  }

  lemma {:induction false} SameFromSuffixAt(doc: string, e: nat, i: nat)
    requires e + i <= |doc|
    ensures SameFrom(doc, e + i, doc[e..], i)
    decreases |doc| - e - i
  {
    if e + i < |doc| {
      SameFromSuffixAt(doc, e, i + 1);
    }
  }

  lemma SameFromSuffix(doc: string, e: nat)
    requires e <= |doc|
    ensures SameFrom(doc, e, doc[e..], 0)
  {
    SameFromSuffixAt(doc, e, 0);
  }

  lemma {:induction false} SkipSpaceShift(x: string, y: string, p: nat, q: nat)
    requires SameFrom(x, p, y, q)
    ensures SkipSpace(y, q) == SkipSpace(x, p) - p + q
    decreases |x| - p
  {
    if p < |x| && IsSpace(x[p]) {
      SkipSpaceShift(x, y, p + 1, q + 1);
    }
  }

  lemma {:induction false} FirstCloseShift(x: string, y: string, p: nat, q: nat)
    requires SameFrom(x, p, y, q)
    ensures FirstClose(y, q).None? == FirstClose(x, p).None?
    ensures FirstClose(x, p).Some? ==> FirstClose(y, q).value == FirstClose(x, p).value - p + q
    decreases |x| - p
  {
    if p < |x| && x[p] != '}' {
      FirstCloseShift(x, y, p + 1, q + 1);
    }
  }

  lemma {:induction false} LiteralShift(x: string, y: string, sel: string, p: nat, q: nat)
    requires SameFrom(x, p, y, q)
    ensures LiteralAt(y, sel, q) == LiteralAt(x, sel, p)
    decreases |sel|
  {
    if |sel| > 0 && p < |x| {
      LiteralShift(x, y, sel[1..], p + 1, q + 1);
      if p + |sel| <= |x| {
        assert x[p..p + |sel|] == [x[p]] + x[p + 1..p + |sel|];
        assert y[q..q + |sel|] == [y[q]] + y[q + 1..q + |sel|];
        assert sel == [sel[0]] + sel[1..];
      }
    }
  }

  lemma MatchAtShift(x: string, y: string, sel: string, p: nat, q: nat)
    requires SameFrom(x, p, y, q)
    ensures MatchAt(y, sel, q).None? == MatchAt(x, sel, p).None?
    ensures MatchAt(x, sel, p).Some? ==> MatchAt(y, sel, q).value == MatchAt(x, sel, p).value - p + q
  {
    LiteralShift(x, y, sel, p, q);
    if LiteralAt(x, sel, p) {
      SameFromAdvance(x, p, y, q, |sel|);
      BlockAfterShift(x, y, p + |sel|, q + |sel|);
    }
  }

  lemma BlockAfterShift(x: string, y: string, p: nat, q: nat)
    requires SameFrom(x, p, y, q)
    ensures BlockAfter(y, q).None? == BlockAfter(x, p).None?
    ensures BlockAfter(x, p).Some? ==> BlockAfter(y, q).value == BlockAfter(x, p).value - p + q
  {
    var b := SkipSpace(x, p);
    SkipSpaceShift(x, y, p, q);
    if b < |x| {
      SameFromAdvance(x, p, y, q, b - p);
      if x[b] == '{' {
        FirstCloseShift(x, y, b + 1, b + 1 - p + q);
      }
    }
  }

  lemma {:induction false} FindMatchShift(x: string, y: string, sel: string, p: nat, q: nat)
    requires SameFrom(x, p, y, q)
    ensures FindMatch(y, sel, q).None? == FindMatch(x, sel, p).None?
    ensures FindMatch(x, sel, p).Some? ==>
              FindMatch(y, sel, q)
              == Some((FindMatch(x, sel, p).value.0 - p + q, FindMatch(x, sel, p).value.1 - p + q))
    decreases |x| - p
  {
    MatchAtShift(x, y, sel, p, q);
    if MatchAt(x, sel, p).None? && p < |x| {
      FindMatchShift(x, y, sel, p + 1, q + 1);
    }
  }

  /** Equal text from p and q on: equal slices of any length. */
  lemma {:induction false} SameFromSlice(x: string, p: nat, y: string, q: nat, n: nat)
    requires SameFrom(x, p, y, q) && p + n <= |x|
    ensures x[p..p + n] == y[q..q + n]
    decreases n
  {
    if n > 0 {
      SameFromSlice(x, p + 1, y, q + 1, n - 1);
      assert x[p..p + n] == [x[p]] + x[p + 1..p + n];
      assert y[q..q + n] == [y[q]] + y[q + 1..q + n];
    }
  }

  lemma SameFromSliceTo(x: string, p: nat, y: string, q: nat, s: nat, s': nat)
    requires SameFrom(x, p, y, q) && p <= s <= |x| && s' == s - p + q
    ensures s' <= |y| && x[p..s] == y[q..s']
  {
    SameFromSlice(x, p, y, q, s - p);
  }

  lemma SameFromAdvanceTo(x: string, p: nat, y: string, q: nat, e: nat, e': nat)
    requires SameFrom(x, p, y, q) && p <= e <= |x| && e' == e - p + q
    ensures SameFrom(x, e, y, e')
  {
    SameFromAdvance(x, p, y, q, e - p);
  }

  /** What `sub` produces from a position on depends only on the text from there on. */
  lemma {:induction false} SubAllShift(x: string, y: string, sel: string, repl: string, p: nat, q: nat)
    requires SameFrom(x, p, y, q)
    ensures SubAll(x, sel, repl, p) == SubAll(y, sel, repl, q)
    decreases |x| - p, 1
  {
    FindMatchShift(x, y, sel, p, q);
    var r := FindMatch(x, sel, p);
    if r.None? {
      var n := |x| - p;
      SameFromSlice(x, p, y, q, n);
      assert x[p..] == x[p..p + n];
      assert y[q..] == y[q..q + n];
    } else {
      SubAllShiftMatch(x, y, sel, repl, p, q, r.value.0, r.value.1);
    }
  }

  lemma {:induction false} SubAllShiftMatch(x: string, y: string, sel: string, repl: string, p: nat, q: nat, s: nat, e: nat)
    requires SameFrom(x, p, y, q)
    requires FindMatch(x, sel, p) == Some((s, e))
    requires FindMatch(y, sel, q) == Some((s - p + q, e - p + q))
    ensures SubAll(x, sel, repl, p) == SubAll(y, sel, repl, q)
    decreases |x| - p, 0
  {
    var s', e' := s - p + q, e - p + q;
    SameFromSliceTo(x, p, y, q, s, s');
    SameFromAdvanceTo(x, p, y, q, e, e');
    SubAllShift(x, y, sel, repl, e, e');
    SubAllJoin(x, y, sel, repl, p, q, s, e, s', e');
  }

  lemma SubAllJoin(x: string, y: string, sel: string, repl: string, p: nat, q: nat, s: nat, e: nat, s': nat, e': nat)
    requires p <= |x| && q <= |y|
    requires FindMatch(x, sel, p) == Some((s, e)) && FindMatch(y, sel, q) == Some((s', e'))
    requires x[p..s] == y[q..s'] && SubAll(x, sel, repl, e) == SubAll(y, sel, repl, e')
    ensures SubAll(x, sel, repl, p) == SubAll(y, sel, repl, q)
  {
  }

  /** `sub` from p on is `sub` of the suffix from p. */
  lemma SubAllSuffix(doc: string, sel: string, repl: string, p: nat)
    requires p <= |doc|
    ensures SubAll(doc, sel, repl, p) == SubAll(doc[p..], sel, repl, 0)
  {
    SameFromSuffix(doc, p);
    SubAllShift(doc, doc[p..], sel, repl, p, 0);
  }

  // ---------------------------------------------------------------------------
  // prefix agreement

  /** x and y agree on their first n characters. */
  ghost predicate SameUpTo(x: string, y: string, n: nat) {
    n <= |x| && n <= |y| && forall m :: 0 <= m < n ==> x[m] == y[m]
  }

  lemma {:induction false} SkipSpaceAgree(x: string, y: string, j: nat, n: nat)
    requires SameUpTo(x, y, n) && j <= n && SkipSpace(x, j) < n
    ensures SkipSpace(y, j) == SkipSpace(x, j)
    decreases n - j
  {
    if IsSpace(x[j]) {
      SkipSpaceAgree(x, y, j + 1, n);
    }
  }

  lemma {:induction false} SkipSpaceSkip(x: string, j: nat, n: nat)
    requires j <= n <= |x| && n <= SkipSpace(x, j)
    ensures SkipSpace(x, n) == SkipSpace(x, j)
    decreases n - j
  {
    if j < n {
      SkipSpaceSpaces(x, j);
      assert IsSpace(x[j]);
      SkipSpaceSkip(x, j + 1, n);
    }
  }

  lemma {:induction false} FirstCloseAgree(x: string, y: string, j: nat, n: nat)
    requires SameUpTo(x, y, n) && j <= n
    requires FirstClose(x, j).Some? && FirstClose(x, j).value < n
    ensures FirstClose(y, j) == FirstClose(x, j)
    decreases n - j
  {
    if x[j] != '}' {
      FirstCloseAgree(x, y, j + 1, n);
    }
  }

  lemma LiteralAgree(x: string, y: string, sel: string, i: nat, n: nat)
    requires SameUpTo(x, y, n) && i + |sel| <= n
    ensures LiteralAt(x, sel, i) == LiteralAt(y, sel, i)
  {
    var a, b := i, i + |sel|;
    forall m | 0 <= m < b - a
      ensures x[a..b][m] == y[a..b][m]
    {
      assert x[a + m] == y[a + m];
    }
  }

  /** A match is decided by the text up to its end: any text that agrees with doc
      that far has the same match. */
  lemma MatchAtExtend(x: string, y: string, sel: string, i: nat)
    requires i <= |x| && MatchAt(x, sel, i).Some?
    requires SameUpTo(x, y, MatchAt(x, sel, i).value)
    ensures MatchAt(y, sel, i) == MatchAt(x, sel, i)
  {
    var e := MatchAt(x, sel, i).value;
    LiteralAgree(x, y, sel, i, e);
    var b := SkipSpace(x, i + |sel|);
    SkipSpaceAgree(x, y, i + |sel|, e);
    FirstCloseAgree(x, y, b + 1, e);
  }

  /** Two texts that agree before s and both hold the selector at s agree through it. */
  lemma AgreeThroughSelector(x: string, y: string, sel: string, s: nat)
    requires SameUpTo(x, y, s) && LiteralAt(x, sel, s) && LiteralAt(y, sel, s)
    ensures SameUpTo(x, y, s + |sel|)
  {
    var n := s + |sel|;
    LiteralAtSlice(x, sel, s);
    LiteralAtSlice(y, sel, s);
    forall m | s <= m < n
      ensures x[m] == y[m]
    {
      assert x[m] == x[s..n][m - s] == y[s..n][m - s] == y[m];
    }
  }

  /** Writing a rule block at s creates no new match before s: if the patched text y
      (agreeing with x before s, and with a match at s in both) has a match at p < s,
      then x already had one there. */
  lemma MatchBeforeBlockIsOld(x: string, y: string, sel: string, s: nat, p: nat)
    requires p < s && SameUpTo(x, y, s)
    requires MatchAt(x, sel, s).Some? && MatchAt(y, sel, s).Some?
    ensures MatchAt(y, sel, p).Some? ==> MatchAt(x, sel, p).Some?
  {
    if MatchAt(y, sel, p).Some? {
      var n := s + |sel|;
      AgreeThroughSelector(x, y, sel, s);
      var j := p + |sel|;
      LiteralAgree(x, y, sel, p, n);
      var bx := SkipSpace(x, j);
      var ex := MatchAt(x, sel, s).value;
      if bx < n {
        SkipSpaceAgree(x, y, j, n);
        FirstCloseFirst(x, bx + 1);
        assert x[ex - 1] == '}';
      } else {
        SkipSpaceSkip(x, j, n);
      }
    }
  }

  /** The replacement contains a complete block, and trailing text does not change that. */
  lemma BlockMatchesInPlace(doc: string, sel: string, repl: string, s: nat)
    requires IsRuleBlock(repl, sel) && s + |repl| <= |doc| && doc[s..s + |repl|] == repl
    ensures MatchAt(doc, sel, s) == Some(s + |repl|)
  {
    var t := doc[s..];
    assert SameUpTo(repl, t, |repl|) by {
      forall m | 0 <= m < |repl|
        ensures repl[m] == t[m]
      {
        assert repl[m] == doc[s..s + |repl|][m];
      }
    }
    MatchAtExtend(repl, t, sel, 0);
    SameFromSuffix(doc, s);
    MatchAtShift(doc, t, sel, s, 0);
  }

  /** `sub` on the whole text with first match (s, e): the text before s, the
      replacement, then `sub` on the text after e. */
  lemma SubAllFirst(doc: string, sel: string, repl: string, s: nat, e: nat)
    requires FindMatch(doc, sel, 0) == Some((s, e))
    ensures SubAll(doc, sel, repl, 0) == doc[..s] + repl + SubAll(doc[e..], sel, repl, 0)
  {
    assert doc[0..s] == doc[..s];
    SubAllSuffix(doc, sel, repl, e);
  }

  lemma ConcatParts(a: string, b: string, c: string)
    ensures (a + b + c)[..|a|] == a && (a + b + c)[|a| + |b|..] == c
  {
  }

  /** A text that agrees with doc before doc's first match s and holds a rule block
      at s: its first match is that block. */
  lemma BlockIsFirstMatch(doc: string, out: string, sel: string, repl: string, s: nat)
    requires IsRuleBlock(repl, sel) && FindMatch(doc, sel, 0).Some? && FindMatch(doc, sel, 0).value.0 == s
    requires SameUpTo(doc, out, s) && s + |repl| <= |out| && out[s..s + |repl|] == repl
    ensures FindMatch(out, sel, 0) == Some((s, s + |repl|))
  {
    BlockMatchesInPlace(out, sel, repl, s);
    FindMatchSpec(doc, sel, 0);
    forall p | 0 <= p < s
      ensures MatchAt(out, sel, p).None?
    {
      MatchBeforeBlockIsOld(doc, out, sel, s, p);
    }
    FindMatchIs(out, sel, 0, s, s + |repl|);
  }

  /** The pieces of doc[..s] + repl + t. */
  lemma PatchedPieces(doc: string, repl: string, t: string, s: nat)
    requires s <= |doc|
    ensures var out := doc[..s] + repl + t;
            SameUpTo(doc, out, s) && s + |repl| <= |out| && out[s..s + |repl|] == repl
  {
    var out := doc[..s] + repl + t;
    assert out[s..s + |repl|] == repl;
    forall m | 0 <= m < s
      ensures doc[m] == out[m]
    {
      assert out[m] == doc[..s][m];
    }
  }

  /** After the first match of doc is replaced by a rule block, the first match of the
      result is that block, whatever follows it. */
  lemma PatchedFirstMatch(doc: string, sel: string, repl: string, t: string, s: nat, e: nat)
    requires IsRuleBlock(repl, sel) && FindMatch(doc, sel, 0) == Some((s, e))
    ensures FindMatch(doc[..s] + repl + t, sel, 0) == Some((s, s + |repl|))
  {
    PatchedPieces(doc, repl, t, s);
    BlockIsFirstMatch(doc, doc[..s] + repl + t, sel, repl, s);
  }

  lemma {:induction false} SubAllIdempotent(doc: string, sel: string, repl: string)
    requires IsRuleBlock(repl, sel)
    ensures SubAll(SubAll(doc, sel, repl, 0), sel, repl, 0) == SubAll(doc, sel, repl, 0)
    decreases |doc|
  {
    var r := FindMatch(doc, sel, 0);
    if r.None? {
      assert doc[0..] == doc;
    } else {
      SubAllIdempotent(doc[r.value.1..], sel, repl);
      SubAllIdempotentStep(doc, sel, repl, r.value.0, r.value.1);
    }
  }

  /** The inductive step of SubAllIdempotent: with `sub` idempotent on the text after
      the first match, it is idempotent on the whole text. */
  lemma SubAllIdempotentStep(doc: string, sel: string, repl: string, s: nat, e: nat)
    requires IsRuleBlock(repl, sel) && FindMatch(doc, sel, 0) == Some((s, e))
    requires SubAll(SubAll(doc[e..], sel, repl, 0), sel, repl, 0) == SubAll(doc[e..], sel, repl, 0)
    ensures SubAll(SubAll(doc, sel, repl, 0), sel, repl, 0) == SubAll(doc, sel, repl, 0)
  {
    var t := SubAll(doc[e..], sel, repl, 0);
    var out := doc[..s] + repl + t;
    SubAllFirst(doc, sel, repl, s, e);
    ConcatParts(doc[..s], repl, t);
    PatchedFirstMatch(doc, sel, repl, t, s, e);
    SubAllFirst(out, sel, repl, s, s + |repl|);
  }

  /** Substituting a rule block leaves a match in the text: the block itself. */
  lemma SubstitutedHasMatch(doc: string, sel: string, repl: string)
    requires NoBackslash(repl) && IsRuleBlock(repl, sel) && HasMatch(doc, sel)
    ensures HasMatch(Substitute(doc, sel, repl), sel)
  {
    var (s, e) := FindMatch(doc, sel, 0).value;
    SubAllFirst(doc, sel, repl, s, e);
    PatchedFirstMatch(doc, sel, repl, SubAll(doc[e..], sel, repl, 0), s, e);
  }

  /** Patching an already patched document with the same (selector, block) changes
      nothing, provided the block is itself a complete rule block for the selector. */
  lemma SubstituteIdempotent(doc: string, sel: string, repl: string)
    requires NoBackslash(repl) && IsRuleBlock(repl, sel)
    ensures Substitute(Substitute(doc, sel, repl), sel, repl) == Substitute(doc, sel, repl)
  {
    SubAllIdempotent(doc, sel, repl);
  }
}
