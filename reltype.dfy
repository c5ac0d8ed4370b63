/** `rel_type_safe` (load_neo4j.py:24-34): turns a triplet's predicate into the
    relationship type that `create_relationship_native` splices, between
    backticks, into the Cypher text (load_neo4j.py:127).

    After `sanitize_identifier` the Python function
      - replaces each maximal run of whitespace and '-' by one '_' (`re.sub(r"[\s\-]+", "_", s)`),
      - replaces every remaining non-word character by '_' (`re.sub(r"[^\w]", "_", s)`),
      - upper-cases the result (`s.upper()`),
    and falls back to "RELATED_TO" for `None` or an empty result. */
module RelType {
  import opened Wrappers
  import opened CharClasses
  import opened Sanitizer
  import opened Text

  const Fallback: string := "RELATED_TO"

  /** A character of the class `[\s\-]`. */
  predicate IsSep(cc: CharClasses, c: char) {
    cc.isSpace(c) || c == '-'
  }

  /** Where the greedy match of `[\s\-]*` starting at `from` ends: the first
      index at or after `from` that holds no separator. */
  function SepRunEnd(cc: CharClasses, s: string, from: nat): (n: nat)
    requires from <= |s|
    ensures from <= n <= |s|
    ensures forall k :: from <= k < n ==> IsSep(cc, s[k])
    ensures n == |s| || !IsSep(cc, s[n])
    decreases |s| - from
  {
    if from < |s| && IsSep(cc, s[from]) then SepRunEnd(cc, s, from + 1) else from
  }

  /** The greedy match of `[\s\-]+` at the front of `s`: what is left once it is consumed. */
  function DropSeps(cc: CharClasses, s: string): (r: string)
    ensures |r| <= |s| && r == s[|s| - |r|..]
    ensures s != [] && IsSep(cc, s[0]) ==> |r| < |s|
    ensures r == [] || !IsSep(cc, r[0])
    ensures forall k :: 0 <= k < |s| - |r| ==> IsSep(cc, s[k])
  {
    s[SepRunEnd(cc, s, 0)..]
  }

  /** `re.sub(r"[\s\-]+", "_", s)`: scanning left to right, every run of
      separators is consumed whole and replaced by a single '_'. */
  function Collapse(cc: CharClasses, s: string): (r: string)
    ensures forall i :: 0 <= i < |r| ==> r[i] == '_' || (r[i] in s && !IsSep(cc, r[i]))
    ensures r == [] <==> s == []
    decreases |s|
  {
    if s == [] then []
    else if IsSep(cc, s[0]) then
      var d := DropSeps(cc, s);
      assert forall c :: c in d ==> c in s;
      ['_'] + Collapse(cc, d)
    else
      var t := s[1..];
      assert forall c :: c in t ==> c in s;
      [s[0]] + Collapse(cc, t)
  }

  /** `re.sub(r"[^\w]", "_", s)`. */
  function ReplaceNonWord(cc: CharClasses, s: string): (r: string)
    ensures |r| == |s|
    ensures forall i :: 0 <= i < |r| ==>
      (cc.isWord(s[i]) ==> r[i] == s[i]) && (!cc.isWord(s[i]) ==> r[i] == '_')
    ensures (forall i :: 0 <= i < |s| ==> cc.isWord(s[i])) ==> r == s
  {
    seq(|s|, i requires 0 <= i < |s| => if cc.isWord(s[i]) then s[i] else '_')
  }

  /** After the substitution only word characters are left, whatever the input. */
  lemma ReplaceNonWordIsWord(cc: CharClasses, s: string)
    requires WellFormed(cc)
    ensures forall i :: 0 <= i < |ReplaceNonWord(cc, s)| ==> cc.isWord(ReplaceNonWord(cc, s)[i])
  {
    var r := ReplaceNonWord(cc, s);
    forall i | 0 <= i < |r| ensures cc.isWord(r[i]) {
      if !cc.isWord(s[i]) {
        assert r[i] == '_';
      }
    }
  }

  /** `s.upper()`, one character at a time. */
  function UpperAll(cc: CharClasses, s: string): (r: string)
    ensures |r| == |s|
    ensures forall i :: 0 <= i < |r| ==> r[i] == cc.upper(s[i])
  {
    seq(|s|, i requires 0 <= i < |s| => cc.upper(s[i]))
  }

  /** `rel_type_safe(rel)`; `None` is Python's `None`. */
  function RelTypeSafe(cc: CharClasses, rel: Option<string>): (r: string)
    ensures r != []
    ensures rel.None? ==> r == Fallback
  {
    match rel
    case None => Fallback
    case Some(_) =>
      var s := UpperAll(cc, ReplaceNonWord(cc, Collapse(cc, SanitizeIdentifier(cc, rel))));
      if s == [] then Fallback else s
  }

  // ---------------------------------------------------------------------------
  // The separator-collapsing step

  /** A string without separators passes through unchanged. */
  lemma {:induction false} CollapseSepFree(cc: CharClasses, s: string)
    requires forall i :: 0 <= i < |s| ==> !IsSep(cc, s[i])
    ensures Collapse(cc, s) == s
  {
    if s != [] {
      CollapseSepFree(cc, s[1..]);
    }
  }

  /** The end of the leading separator run is the first non-separator. */
  lemma SepRunEndAt(cc: CharClasses, s: string, e: nat)
    requires e <= |s|
    requires forall k :: 0 <= k < e ==> IsSep(cc, s[k])
    requires e == |s| || !IsSep(cc, s[e])
    ensures SepRunEnd(cc, s, 0) == e
  {
  }

  /** Consuming a separator run stops exactly where the run ends. */
  lemma DropSepsConcat(cc: CharClasses, run: string, q: string)
    requires forall i :: 0 <= i < |run| ==> IsSep(cc, run[i])
    requires q == [] || !IsSep(cc, q[0])
    ensures DropSeps(cc, run + q) == q
  {
    var s := run + q;
    assert forall k :: 0 <= k < |run| ==> s[k] == run[k];
    assert |run| < |s| ==> s[|run|] == q[0];
    SepRunEndAt(cc, s, |run|);
    assert s[|run|..] == q;
  }

  /** Consuming the leading separators of `p + rest` never reaches `rest` when
      `p` ends in a non-separator. */
  lemma DropSepsPrefix(cc: CharClasses, p: string, rest: string)
    requires p != [] && !IsSep(cc, p[|p| - 1])
    ensures DropSeps(cc, p + rest) == DropSeps(cc, p) + rest
  {
    var s := p + rest;
    var m := SepRunEnd(cc, p, 0);
    assert m < |p|;
    assert forall k :: 0 <= k < |p| ==> s[k] == p[k];
    SepRunEndAt(cc, s, m);
    assert s[m..] == p[m..] + rest;
  }

  /** Each maximal run of whitespace and '-' becomes exactly one '_': if `run`
      is such a run in `p + run + q` (nothing before or after it is a separator),
      collapsing the whole is collapsing the two sides around a single '_'. */
  lemma {:induction false} CollapseMaximalRun(cc: CharClasses, p: string, run: string, q: string)
    requires p == [] || !IsSep(cc, p[|p| - 1])
    requires run != [] && forall i :: 0 <= i < |run| ==> IsSep(cc, run[i])
    requires q == [] || !IsSep(cc, q[0])
    ensures Collapse(cc, p + (run + q)) == Collapse(cc, p) + ['_'] + Collapse(cc, q)
    decreases |p|
  {
    if p == [] {
      CollapseRunFirst(cc, run, q);
      assert p + (run + q) == run + q;
    } else {
      CollapseScanStep(cc, p, run + q);
      CollapseMaximalRun(cc, ScanRest(cc, p), run, q);
      var h, c := [ScanHead(cc, p)], Collapse(cc, ScanRest(cc, p));
      AppendAssoc(h, c + ['_'], Collapse(cc, q));
      AppendAssoc(h, c, ['_']);
    }
  }

  /** A leading separator run collapses to one '_'. */
  lemma CollapseRunFirst(cc: CharClasses, run: string, q: string)
    requires run != [] && forall i :: 0 <= i < |run| ==> IsSep(cc, run[i])
    requires q == [] || !IsSep(cc, q[0])
    ensures Collapse(cc, run + q) == [] + ['_'] + Collapse(cc, q)
  {
    DropSepsConcat(cc, run, q);
    CollapseStepSep(cc, run + q);
  }

  /** The character one step of the scan of `Collapse` emits... */
  function ScanHead(cc: CharClasses, p: string): char
    requires p != []
  {
    if IsSep(cc, p[0]) then '_' else p[0]
  }

  /** ...and what that step leaves to scan. */
  function ScanRest(cc: CharClasses, p: string): string
    requires p != []
  {
    if IsSep(cc, p[0]) then DropSeps(cc, p) else p[1..]
  }

  /** When `p` ends in a non-separator, the first step of the scan of `p + rest`
      stays inside `p`. */
  lemma CollapseScanStep(cc: CharClasses, p: string, rest: string)
    requires p != [] && !IsSep(cc, p[|p| - 1])
    ensures |ScanRest(cc, p)| < |p|
    ensures ScanRest(cc, p) == [] || !IsSep(cc, ScanRest(cc, p)[|ScanRest(cc, p)| - 1])
    ensures Collapse(cc, p) == [ScanHead(cc, p)] + Collapse(cc, ScanRest(cc, p))
    ensures Collapse(cc, p + rest) == [ScanHead(cc, p)] + Collapse(cc, ScanRest(cc, p) + rest)
  {
    if IsSep(cc, p[0]) {
      ScanStepSep(cc, p, rest);
    } else {
      ScanStepWord(cc, p, rest);
    }
  }

  lemma ScanStepSep(cc: CharClasses, p: string, rest: string)
    requires p != [] && !IsSep(cc, p[|p| - 1]) && IsSep(cc, p[0])
    ensures var d := DropSeps(cc, p);
      && d != [] && !IsSep(cc, d[|d| - 1])
      && Collapse(cc, p) == ['_'] + Collapse(cc, d)
      && Collapse(cc, p + rest) == ['_'] + Collapse(cc, d + rest)
  {
    DropSepsPrefix(cc, p, rest);
    var d := DropSeps(cc, p);
    assert d[|d| - 1] == p[|p| - 1];
    CollapseStepSep(cc, p);
    assert (p + rest)[0] == p[0];
    CollapseStepSep(cc, p + rest);
  }

  lemma ScanStepWord(cc: CharClasses, p: string, rest: string)
    requires p != [] && !IsSep(cc, p[|p| - 1]) && !IsSep(cc, p[0])
    ensures var p1 := p[1..];
      && (p1 == [] || !IsSep(cc, p1[|p1| - 1]))
      && Collapse(cc, p) == [p[0]] + Collapse(cc, p1)
      && Collapse(cc, p + rest) == [p[0]] + Collapse(cc, p1 + rest)
  {
    var p1 := p[1..];
    assert p1 == [] || p1[|p1| - 1] == p[|p| - 1];
    CollapseStepWord(cc, p);
    assert (p + rest)[0] == p[0];
    assert (p + rest)[1..] == p1 + rest;
    CollapseStepWord(cc, p + rest);
  }

  /** One step of the scan of `Collapse`, at a separator... */
  lemma CollapseStepSep(cc: CharClasses, s: string)
    requires s != [] && IsSep(cc, s[0])
    ensures Collapse(cc, s) == ['_'] + Collapse(cc, DropSeps(cc, s))
  {
  }

  /** ...and at any other character. */
  lemma CollapseStepWord(cc: CharClasses, s: string)
    requires s != [] && !IsSep(cc, s[0])
    ensures Collapse(cc, s) == [s[0]] + Collapse(cc, s[1..])
  {
  }

  /** Upper-casing is idempotent: its result is already upper case. */
  lemma UpperAllIdempotent(cc: CharClasses, s: string)
    requires WellFormed(cc)
    ensures UpperAll(cc, UpperAll(cc, s)) == UpperAll(cc, s)
  {
    var u := UpperAll(cc, s);
    forall i | 0 <= i < |u| ensures UpperAll(cc, u)[i] == u[i] {
      assert cc.upper(cc.upper(s[i])) == cc.upper(s[i]);
    }
  }

  // ---------------------------------------------------------------------------
  // rel_type_safe as a whole

  /** What survives `sanitize_identifier` and the collapsing step consists of
      word characters only, so the substitution of line 30 changes nothing. */
  lemma CollapsedSanitizedIsWord(cc: CharClasses, x: string)
    requires WellFormed(cc)
    ensures var c := Collapse(cc, SanitizeIdentifier(cc, Some(x)));
      forall i :: 0 <= i < |c| ==> cc.isWord(c[i])
  {
  }

  lemma ReplaceNonWordIsNoOp(cc: CharClasses, x: string)
    requires WellFormed(cc)
    ensures var c := Collapse(cc, SanitizeIdentifier(cc, Some(x)));
      ReplaceNonWord(cc, c) == c
  {
    CollapsedSanitizedIsWord(cc, x);
  }

  /** The fallback is taken exactly for `None` and for input that sanitises to
      nothing; otherwise the result is the upper-cased collapsed string. */
  lemma RelTypeSafeCases(cc: CharClasses, rel: Option<string>)
    requires WellFormed(cc)
    ensures rel.None? || SanitizeIdentifier(cc, rel) == [] ==> RelTypeSafe(cc, rel) == Fallback
    ensures rel.Some? && SanitizeIdentifier(cc, rel) != [] ==>
      RelTypeSafe(cc, rel) == UpperAll(cc, Collapse(cc, SanitizeIdentifier(cc, rel)))
  {
    if rel.Some? {
      ReplaceNonWordIsNoOp(cc, rel.value);
    }
  }

  /** The security contract of the token spliced into `[r:`...`]`: never empty,
      only word characters (so no whitespace, no '-', no backtick), all of them
      already upper case. */
  lemma RelTypeSafeIsSafeToken(cc: CharClasses, rel: Option<string>)
    requires WellFormed(cc)
    ensures var r := RelTypeSafe(cc, rel);
      && r != []
      && (forall i :: 0 <= i < |r| ==> cc.isWord(r[i]) && cc.upper(r[i]) == r[i])
      && (forall i :: 0 <= i < |r| ==> !cc.isSpace(r[i]) && r[i] != '-' && r[i] != '`')
  {
    if rel.None? || SanitizeIdentifier(cc, rel) == [] {
      RelTypeSafeCases(cc, rel);
      FallbackIsToken(cc);
    } else {
      RelTypeSafeCases(cc, rel);
      CollapsedSanitizedIsWord(cc, rel.value);
      UpperWordsAreTokens(cc, Collapse(cc, SanitizeIdentifier(cc, rel)));
    }
  }

  /** "RELATED_TO" is an upper-case token of word characters. */
  lemma FallbackIsToken(cc: CharClasses)
    requires WellFormed(cc)
    ensures forall i :: 0 <= i < |Fallback| ==>
      && cc.isWord(Fallback[i]) && cc.upper(Fallback[i]) == Fallback[i]
      && !cc.isSpace(Fallback[i]) && Fallback[i] != '-' && Fallback[i] != '`'
  {
    assert forall i :: 0 <= i < |Fallback| ==> IsUpperFixedAscii(Fallback[i]);
  }

  /** Upper-casing a string of word characters gives an upper-case token of
      word characters. */
  lemma UpperWordsAreTokens(cc: CharClasses, c: string)
    requires WellFormed(cc)
    requires forall i :: 0 <= i < |c| ==> cc.isWord(c[i])
    ensures var r := UpperAll(cc, c);
      forall i :: 0 <= i < |r| ==>
        && cc.isWord(r[i]) && cc.upper(r[i]) == r[i]
        && !cc.isSpace(r[i]) && r[i] != '-' && r[i] != '`'
  {
  }

  /** A non-empty upper-case token of word characters is its own relationship type. */
  lemma RelTypeSafeFixesTokens(cc: CharClasses, t: string)
    requires WellFormed(cc)
    requires t != []
    requires forall i :: 0 <= i < |t| ==> cc.isWord(t[i]) && cc.upper(t[i]) == t[i]
    ensures RelTypeSafe(cc, Some(t)) == t
  {
    SanitizeFixesWords(cc, t);
    CollapseFixesWords(cc, t);
    UpperFixesTokens(cc, t);
  }

  lemma CollapseFixesWords(cc: CharClasses, t: string)
    requires WellFormed(cc)
    requires forall i :: 0 <= i < |t| ==> cc.isWord(t[i])
    ensures Collapse(cc, t) == t
  {
    assert forall i :: 0 <= i < |t| ==> !IsSep(cc, t[i]);
    CollapseSepFree(cc, t);
  }

  lemma UpperFixesTokens(cc: CharClasses, t: string)
    requires forall i :: 0 <= i < |t| ==> cc.isWord(t[i]) && cc.upper(t[i]) == t[i]
    ensures ReplaceNonWord(cc, t) == t
    ensures UpperAll(cc, t) == t
  {
  }

  /** A string of word characters with no space at either end is left alone
      by the sanitiser. */
  lemma SanitizeFixesWords(cc: CharClasses, t: string)
    requires WellFormed(cc)
    requires t != []
    requires forall i :: 0 <= i < |t| ==> cc.isWord(t[i])
    ensures SanitizeIdentifier(cc, Some(t)) == t
  {
    assert RemoveBackticks(t) == t by {
      assert forall i :: 0 <= i < |t| ==> t[i] != '`';
    }
    assert KeepSafe(cc, t) == t by {
      assert forall i :: 0 <= i < |t| ==> IsSafe(cc, t[i]);
    }
    assert Strip(cc, t) == t by {
      assert !cc.isSpace(t[0]) && !cc.isSpace(t[|t| - 1]);
    }
  }

  /** `rel_type_safe` is idempotent. */
  lemma RelTypeSafeIdempotent(cc: CharClasses, rel: Option<string>)
    requires WellFormed(cc)
    ensures RelTypeSafe(cc, Some(RelTypeSafe(cc, rel))) == RelTypeSafe(cc, rel)
  {
    RelTypeSafeIsSafeToken(cc, rel);
    RelTypeSafeFixesTokens(cc, RelTypeSafe(cc, rel));
  }

  // ---------------------------------------------------------------------------
  // Worked inputs

  /** "RELATED_TO", the value `create_relationship_native` uses for a missing
      predicate, passes through unchanged. */
  lemma FallbackIsFixed(cc: CharClasses)
    requires WellFormed(cc)
    ensures RelTypeSafe(cc, Some(Fallback)) == Fallback
  {
    assert forall i :: 0 <= i < |Fallback| ==> IsUpperFixedAscii(Fallback[i]);
    RelTypeSafeFixesTokens(cc, Fallback);
  }

  /** Punctuation only: nothing survives, so the fallback is used. */
  lemma PunctuationFallsBack(cc: CharClasses)
    requires WellFormed(cc)
    ensures RelTypeSafe(cc, Some("`:`")) == Fallback
  {
    assert KeepSafe(cc, RemoveBackticks("`:`")) == [];
  }
}
