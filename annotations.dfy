/** What the annotation patterns of src/epub_info.py (lines 165-166) match:
    an opener, a lazy run of content without a newline, a listed token
    directly followed by a closer, and that closer. The match ends at the
    FIRST place where such a token can end the span. */
module Annotations {
  import opened Chars
  import opened Regex

  /** Token `w` sits at `j` in `t` and a closer follows it. */
  predicate TokenFits(w: string, closers: set<char>, t: string, j: nat) {
    j + |w| < |t| && t[j..j + |w|] == w && t[j + |w|] in closers
  }

  /** `t` starts with a span of `a` whose content is `t[1..j]` and whose
      token is `w`. */
  predicate SpanAt(a: Annotation, t: string, j: nat, w: string) {
    && 1 + a.minContent <= j
    && 0 < |t| && t[0] in a.openers
    && (forall k :: 1 <= k < j && k < |t| ==> t[k] != '\n')
    && w in a.tokens
    && TokenFits(w, a.closers, t, j)
  }

  /** The token search at one content length finds a fitting token exactly
      when there is one, and reports its length. */
  lemma {:induction false} TokenAtSpec(tokens: seq<string>, closers: set<char>, t: string, j: nat)
    requires j <= |t|
    ensures TokenAt(tokens, closers, t, j).Some? ==>
      exists w :: w in tokens && TokenFits(w, closers, t, j) && |w| == TokenAt(tokens, closers, t, j).value
    ensures TokenAt(tokens, closers, t, j).None? ==>
      forall w :: w in tokens ==> !TokenFits(w, closers, t, j)
    decreases |tokens|
  {
    if tokens != [] {
      var w0 := tokens[0];
      TokenAtSpec(tokens[1..], closers, t, j);
      assert j + |w0| <= |t| ==> t[j..][..|w0|] == t[j..j + |w0|];
      if !(StartsWith(t[j..], w0) && j + |w0| < |t| && t[j + |w0|] in closers) {
        assert TokenAt(tokens, closers, t, j) == TokenAt(tokens[1..], closers, t, j);
        if TokenAt(tokens, closers, t, j).None? {
          forall w | w in tokens ensures !TokenFits(w, closers, t, j) {
            if w != w0 {
              assert w in tokens[1..];
            }
          }
        }
      }
    }
  }

  /** No newline in `t[j..e]`. */
  predicate OneLine(t: string, j: nat, e: nat) {
    forall k :: j <= k < e && k < |t| ==> t[k] != '\n'
  }

  /** No token fits at any content length in `[j, e)`. */
  predicate NoTokenBefore(a: Annotation, t: string, j: nat, e: nat) {
    forall k, v :: j <= k < e && v in a.tokens ==> !TokenFits(v, a.closers, t, k)
  }

  /** The span the lazy search reports from content length `j`. */
  ghost predicate LazyEnd(a: Annotation, t: string, j: nat, len: nat) {
    exists e: nat, w :: j <= e && w in a.tokens && TokenFits(w, a.closers, t, e)
      && OneLine(t, j, e) && NoTokenBefore(a, t, j, e) && len == e + |w| + 1
  }

  /** No token fits at any content length from `j` on reachable without
      crossing a newline. */
  ghost predicate NoLazyEnd(a: Annotation, t: string, j: nat) {
    forall e: nat, w :: j <= e && w in a.tokens && OneLine(t, j, e) ==> !TokenFits(w, a.closers, t, e)
  }

  lemma LazyEndStep(a: Annotation, t: string, j: nat, len: nat)
    requires j < |t| && t[j] != '\n'
    requires forall w :: w in a.tokens ==> !TokenFits(w, a.closers, t, j)
    requires LazyEnd(a, t, j + 1, len)
    ensures LazyEnd(a, t, j, len)
  {
    var e: nat, w :| j + 1 <= e && w in a.tokens && TokenFits(w, a.closers, t, e)
      && OneLine(t, j + 1, e) && NoTokenBefore(a, t, j + 1, e) && len == e + |w| + 1;
    assert OneLine(t, j, e);
    assert NoTokenBefore(a, t, j, e);
  }

  lemma NoLazyEndStep(a: Annotation, t: string, j: nat)
    requires j < |t| && t[j] != '\n'
    requires forall w :: w in a.tokens ==> !TokenFits(w, a.closers, t, j)
    requires NoLazyEnd(a, t, j + 1)
    ensures NoLazyEnd(a, t, j)
  {
    forall e: nat, w | j <= e && w in a.tokens && OneLine(t, j, e)
      ensures !TokenFits(w, a.closers, t, e)
    {
      if j < e {
        assert OneLine(t, j + 1, e);
      }
    }
  }

  lemma NoLazyEndStop(a: Annotation, t: string, j: nat)
    requires j <= |t| && (j == |t| || t[j] == '\n')
    requires forall w :: w in a.tokens ==> !TokenFits(w, a.closers, t, j)
    ensures NoLazyEnd(a, t, j)
  {
  }

  /** From content length `j` on, the lazy search ends the span at the first
      content length `e` where a token fits, provided no newline comes
      first; it fails when there is no such `e`. */
  lemma {:induction false} LazyAnnotationSpec(a: Annotation, t: string, j: nat)
    requires 1 <= j <= |t|
    ensures LazyAnnotation(a, t, j).Some? ==> LazyEnd(a, t, j, LazyAnnotation(a, t, j).value.len)
    ensures LazyAnnotation(a, t, j).None? ==> NoLazyEnd(a, t, j)
    decreases |t| - j
  {
    TokenAtSpec(a.tokens, a.closers, t, j);
    match TokenAt(a.tokens, a.closers, t, j)
    case Some(n) =>
      var w :| w in a.tokens && TokenFits(w, a.closers, t, j) && |w| == n;
      assert OneLine(t, j, j) && NoTokenBefore(a, t, j, j);
    case None =>
      if j < |t| && t[j] != '\n' {
        LazyAnnotationSpec(a, t, j + 1);
        if LazyAnnotation(a, t, j + 1).Some? {
          LazyEndStep(a, t, j, LazyAnnotation(a, t, j + 1).value.len);
        } else {
          NoLazyEndStep(a, t, j);
        }
      } else {
        NoLazyEndStop(a, t, j);
      }
  }

  /** An annotation pattern matches at the start of `t` exactly when `t`
      starts with a span; the match is the span whose content is shortest. */
  lemma AnnotationSpans(a: Annotation, t: string)
    ensures Match(Bracketed(a), t).Some? <==> exists j: nat, w :: SpanAt(a, t, j, w)
    ensures Match(Bracketed(a), t).Some? ==>
      exists j: nat, w :: SpanAt(a, t, j, w) && Match(Bracketed(a), t).value.len == j + |w| + 1
        && forall i: nat, v :: SpanAt(a, t, i, v) ==> j <= i
  {
    var m := a.minContent + 1;
    assert Match(Bracketed(a), t) == MatchAnnotation(a, t);
    if m <= |t| && t[0] in a.openers && (forall k :: 1 <= k < m ==> t[k] != '\n') {
      var r := LazyAnnotation(a, t, m);
      assert Match(Bracketed(a), t) == r;
      assert OneLine(t, 1, m);
      LazyAnnotationSpec(a, t, m);
      if r.Some? {
        SpansFound(a, t, r.value.len);
      } else {
        SpansNone(a, t);
      }
    } else {
      SpansNoStart(a, t);
    }
  }

  lemma SpansFound(a: Annotation, t: string, len: nat)
    requires 0 < |t| && t[0] in a.openers && OneLine(t, 1, a.minContent + 1)
    requires LazyEnd(a, t, a.minContent + 1, len)
    ensures exists j: nat, w ::
      SpanAt(a, t, j, w) && len == j + |w| + 1 && forall i: nat, v :: SpanAt(a, t, i, v) ==> j <= i
  {
    var m := a.minContent + 1;
    var e: nat, w :| m <= e && w in a.tokens && TokenFits(w, a.closers, t, e)
      && OneLine(t, m, e) && NoTokenBefore(a, t, m, e) && len == e + |w| + 1;
    assert SpanAt(a, t, e, w);
    forall i: nat, v | SpanAt(a, t, i, v) ensures e <= i {
      assert i < e ==> !TokenFits(v, a.closers, t, i);
    }
  }

  lemma SpansNone(a: Annotation, t: string)
    requires OneLine(t, 1, a.minContent + 1) && NoLazyEnd(a, t, a.minContent + 1)
    ensures forall j: nat, w :: !SpanAt(a, t, j, w)
  {
    forall j: nat, w ensures !SpanAt(a, t, j, w) {
      assert SpanAt(a, t, j, w) ==> OneLine(t, a.minContent + 1, j);
    }
  }

  lemma SpansNoStart(a: Annotation, t: string)
    requires !(a.minContent + 1 <= |t| && t[0] in a.openers && OneLine(t, 1, a.minContent + 1))
    ensures forall j: nat, w :: !SpanAt(a, t, j, w)
  {
    forall j: nat, w ensures !SpanAt(a, t, j, w) {
      assert SpanAt(a, t, j, w) ==> a.minContent + 1 <= j < |t|;
    }
  }

  /** A span is what the pattern matches when no token fits at an earlier
      content length, and no other closer follows the span's own content. */
  lemma SpanMatch(a: Annotation, t: string, e: nat, w: string)
    requires SpanAt(a, t, e, w) && NoTokenBefore(a, t, 1, e)
    requires forall k :: e <= k < |t| && t[k] in a.closers ==> k == e + |w|
    ensures Match(Bracketed(a), t) == Some(Hit(e + |w| + 1, ""))
  {
    AnnotationSpans(a, t);
    var j: nat, v :| SpanAt(a, t, j, v) && Match(Bracketed(a), t).value.len == j + |v| + 1
      && forall i: nat, u :: SpanAt(a, t, i, u) ==> j <= i;
    assert j == e;
  }

  /** The match of `p` is all of `t`, so `re.sub` with an empty
      replacement leaves nothing. */
  lemma WholeMatchRemoved(p: Pattern, t: string)
    requires Match(p, t).Some? && Match(p, t).value.len == |t|
    ensures Sub(p, t, "") == ""
  {
    SubReplaces(p, t, "", Match(p, t).value);
    assert t[|t|..] == [];
  }

  /** Text without an opener, one span, and text without an opener again:
      only the span is removed. */
  lemma OneSpanRemoved(a: Annotation, u: string, m: nat, n: nat)
    requires m <= |u| && forall k :: 0 <= k < m ==> u[k] !in a.openers
    requires Match(Bracketed(a), u[m..]) == Some(Hit(n, ""))
    requires m + n <= |u| && forall k :: m + n <= k < |u| ==> u[k] !in a.openers
    ensures Sub(Bracketed(a), u, "") == u[..m] + u[m + n..]
  {
    forall k | 0 <= k < m ensures !MatchesAt(Bracketed(a), u, k) {
      assert u[k..][0] == u[k];
    }
    SubPrefix(Bracketed(a), u, m, "");
    MatchThenNoOpener(a, u[m..], n);
    assert u[m..][n..] == u[m + n..];
  }

  /** A span at the start followed by text without an opener: only the
      span is removed. */
  lemma MatchThenNoOpener(a: Annotation, t: string, n: nat)
    requires Match(Bracketed(a), t) == Some(Hit(n, ""))
    requires n <= |t| && forall k :: n <= k < |t| ==> t[k] !in a.openers
    ensures Sub(Bracketed(a), t, "") == t[n..]
  {
    SubReplaces(Bracketed(a), t, "", Hit(n, ""));
    NoOpenerUnchanged(a, t[n..]);
  }

  /** No token fits before content length `e` when every stretch from
      there up to a closer is not a token. */
  lemma NoTokenBeforeByClosers(a: Annotation, t: string, j: nat, e: nat)
    requires forall i, k :: j <= i < e && i <= k < |t| && t[k] in a.closers ==> t[i..k] !in a.tokens
    ensures NoTokenBefore(a, t, j, e)
  {
    forall i, v | j <= i < e && v in a.tokens ensures !TokenFits(v, a.closers, t, i) {
      if i + |v| < |t| {
        assert t[i + |v|] in a.closers ==> t[i..i + |v|] != v;
      }
    }
  }

  /** A text without an opener has no span, so the removal leaves it as it
      is. */
  lemma NoOpenerUnchanged(a: Annotation, t: string)
    requires forall k :: 0 <= k < |t| ==> t[k] !in a.openers
    ensures Sub(Bracketed(a), t, "") == t
  {
    forall k | 0 <= k < |t| ensures !MatchesAt(Bracketed(a), t, k) {
      assert t[k..][0] == t[k];
    }
    SubNoMatch(Bracketed(a), t, "");
  }

  /** A text where no stretch after an opener and up to a closer is a
      listed token has no span, so the removal leaves it as it is. */
  lemma NoSpanUnchanged(a: Annotation, t: string)
    requires forall m, i, k :: 0 <= m < i <= k < |t| && t[m] in a.openers && t[k] in a.closers ==> t[i..k] !in a.tokens
    ensures Sub(Bracketed(a), t, "") == t
  {
    forall m | 0 <= m < |t| ensures !MatchesAt(Bracketed(a), t, m) {
      NoSpanAt(a, t, m);
    }
    SubNoMatch(Bracketed(a), t, "");
  }

  lemma NoSpanAt(a: Annotation, t: string, m: nat)
    requires m < |t|
    requires forall m, i, k :: 0 <= m < i <= k < |t| && t[m] in a.openers && t[k] in a.closers ==> t[i..k] !in a.tokens
    ensures Match(Bracketed(a), t[m..]).None?
  {
    var u := t[m..];
    forall j: nat, w ensures !SpanAt(a, u, j, w) {
      if SpanAt(a, u, j, w) {
        SpanInText(a, t, m, j, w);
      }
    }
    AnnotationSpans(a, u);
  }

  /** A span at `m` puts its opener at `m` and its token, followed by a
      closer, at `m + j`. */
  lemma SpanInText(a: Annotation, t: string, m: nat, j: nat, w: string)
    requires m < |t| && SpanAt(a, t[m..], j, w)
    ensures m < m + j <= m + j + |w| < |t| && t[m] in a.openers && t[m + j + |w|] in a.closers
    ensures t[m + j..m + j + |w|] == w && w in a.tokens
  {
    assert t[m..][j..j + |w|] == t[m + j..m + j + |w|];
  }

  // ---- The promotional example of line 165.

  /** A promotional span ending in `特典付き` is removed as a whole. */
  lemma PromotionExample(t: string)
    requires t == "【電子版限定特典付き】"
    ensures Sub(Bracketed(Promotion), t, "") == ""
  {
    PromotionExampleFacts(t);
    NoTokenBeforeByClosers(Promotion, t, 1, 6);
    SpanMatch(Promotion, t, 6, "特典付き");
    WholeMatchRemoved(Bracketed(Promotion), t);
  }

  /** The only closer is the last character, and every stretch ending there
      that starts before content length 6 is longer than any token. */
  lemma PromotionExampleFacts(t: string)
    requires t == "【電子版限定特典付き】"
    ensures SpanAt(Promotion, t, 6, "特典付き")
    ensures forall k :: 0 <= k < |t| && t[k] in Promotion.closers ==> k == 10
    ensures forall i :: 1 <= i < 6 ==> t[i..10] !in Promotion.tokens
  {
    PromotionExampleSpan(t);
    PromotionExampleCloser(t);
    PromotionExampleLong(t);
  }

  lemma PromotionExampleSpan(t: string)
    requires t == "【電子版限定特典付き】"
    ensures SpanAt(Promotion, t, 6, "特典付き")
  {
    assert t[6..10] == "特典付き";
  }

  lemma PromotionExampleCloser(t: string)
    requires t == "【電子版限定特典付き】"
    ensures forall k :: 0 <= k < |t| && t[k] in Promotion.closers ==> k == 10
  {
  }

  lemma PromotionExampleLong(t: string)
    requires t == "【電子版限定特典付き】"
    ensures forall i :: 1 <= i < 6 ==> t[i..10] !in Promotion.tokens
  {
    PromotionTokensShort();
  }

  lemma PromotionTokensShort()
    ensures forall v :: v in Promotion.tokens ==> |v| <= 4
  {
  }
}
