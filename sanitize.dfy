/** `sanitize_identifier` (load_neo4j.py:9-22): the filter every label, property
    key and relationship type goes through before it is spliced into Cypher.

    The Python function is a chain of four steps on a string:
      1. `None` becomes "";
      2. `s.replace("`", "")` deletes backticks;
      3. `re.sub(r"[^\w\s-]", "", s)` deletes every character that is not a
         word character, whitespace or '-';
      4. `s.strip()` removes leading and trailing whitespace.
    Each step is one function here; `SanitizeIdentifier` composes them.  The
    comment in the source says dashes become underscores; the code keeps them,
    and so does this model. */
module Sanitizer {
  import opened Wrappers
  import opened CharClasses

  /** A character that survives step 3: `\w`, `\s` or '-'. */
  predicate IsSafe(cc: CharClasses, c: char) {
    cc.isWord(c) || cc.isSpace(c) || c == '-'
  }

  /** Step 2: `s.replace("`", "")`. */
  function RemoveBackticks(s: string): (r: string)
    ensures '`' !in r
    ensures forall c :: c in r <==> c in s && c != '`'
    ensures '`' !in s ==> r == s
  {
    if s == [] then []
    else if s[0] == '`' then RemoveBackticks(s[1..])
    else [s[0]] + RemoveBackticks(s[1..])
  }

  /** Step 3: `re.sub(r"[^\w\s-]", "", s)`, which keeps exactly the safe characters, in order. */
  function KeepSafe(cc: CharClasses, s: string): (r: string)
    ensures forall i :: 0 <= i < |r| ==> IsSafe(cc, r[i])
    ensures forall c :: c in r <==> c in s && IsSafe(cc, c)
    ensures (forall i :: 0 <= i < |s| ==> IsSafe(cc, s[i])) ==> r == s
  {
    if s == [] then []
    else if IsSafe(cc, s[0]) then [s[0]] + KeepSafe(cc, s[1..])
    else KeepSafe(cc, s[1..])
  }

  /** The leading-whitespace half of `str.strip()`. */
  function TrimStart(cc: CharClasses, s: string): (r: string)
    ensures |r| <= |s| && r == s[|s| - |r|..]
    ensures forall k :: 0 <= k < |s| - |r| ==> cc.isSpace(s[k])
    ensures r == [] || !cc.isSpace(r[0])
  {
    if s != [] && cc.isSpace(s[0]) then TrimStart(cc, s[1..]) else s
  }

  /** The trailing-whitespace half of `str.strip()`. */
  function TrimEnd(cc: CharClasses, s: string): (r: string)
    ensures |r| <= |s| && r == s[..|r|]
    ensures forall k :: |r| <= k < |s| ==> cc.isSpace(s[k])
    ensures r == [] || !cc.isSpace(r[|r| - 1])
  {
    if s != [] && cc.isSpace(s[|s| - 1]) then TrimEnd(cc, s[..|s| - 1]) else s
  }

  /** Step 4: `s.strip()`. */
  function Strip(cc: CharClasses, s: string): (r: string)
    ensures r == [] || (!cc.isSpace(r[0]) && !cc.isSpace(r[|r| - 1]))
    ensures forall c :: c in r ==> c in s
    ensures (s == [] || (!cc.isSpace(s[0]) && !cc.isSpace(s[|s| - 1]))) ==> r == s
  {
    TrimBoth(cc, s);
    TrimEnd(cc, TrimStart(cc, s))
  }

  /** The facts `Strip` promises, about its two halves. */
  lemma TrimBoth(cc: CharClasses, s: string)
    ensures var r := TrimEnd(cc, TrimStart(cc, s));
      && (r == [] || (!cc.isSpace(r[0]) && !cc.isSpace(r[|r| - 1])))
      && (forall c :: c in r ==> c in s)
      && ((s == [] || (!cc.isSpace(s[0]) && !cc.isSpace(s[|s| - 1]))) ==> r == s)
  {
    var t := TrimStart(cc, s);
    var r := TrimEnd(cc, t);
    SliceMembers(s, |s| - |t|);
    assert forall c :: c in r ==> c in t by {
      assert r == t[..|r|];
      PrefixMembers(t, |r|);
    }
    assert r != [] ==> r[0] == t[0];
  }

  lemma SliceMembers(s: string, i: nat)
    requires i <= |s|
    ensures forall c :: c in s[i..] ==> c in s
  {
    forall c | c in s[i..] ensures c in s {
      var k :| 0 <= k < |s| - i && s[i..][k] == c;
      assert s[i + k] == c;
    }
  }

  lemma PrefixMembers(s: string, j: nat)
    requires j <= |s|
    ensures forall c :: c in s[..j] ==> c in s
  {
    forall c | c in s[..j] ensures c in s {
      var k :| 0 <= k < j && s[..j][k] == c;
      assert s[k] == c;
    }
  }

  /** `sanitize_identifier(s)`; `None` is Python's `None`. */
  function SanitizeIdentifier(cc: CharClasses, s: Option<string>): (r: string)
    ensures s.None? ==> r == []
    ensures forall i :: 0 <= i < |r| ==> IsSafe(cc, r[i]) && r[i] != '`'
    ensures r == [] || (!cc.isSpace(r[0]) && !cc.isSpace(r[|r| - 1]))
    ensures s.Some? ==> forall c :: c in r ==> c in s.value
  {
    match s
    case None => []
    case Some(x) => Strip(cc, KeepSafe(cc, RemoveBackticks(x)))
  }

  /** Applying `sanitize_identifier` to its own output changes nothing. */
  lemma SanitizeIdempotent(cc: CharClasses, s: Option<string>)
    ensures SanitizeIdentifier(cc, Some(SanitizeIdentifier(cc, s))) == SanitizeIdentifier(cc, s)
  {
  }

  ghost predicate AllSpace(cc: CharClasses, s: string) {
    forall k :: 0 <= k < |s| ==> cc.isSpace(s[k])
  }

  /** Strip removes only whitespace, and only at the two ends: its input is its
      result with a whitespace prefix and a whitespace suffix around it. */
  lemma StripRemovesOnlyEdges(cc: CharClasses, s: string)
    ensures exists pre, post {:trigger AllSpace(cc, pre), AllSpace(cc, post)} ::
      AllSpace(cc, pre) && AllSpace(cc, post) && s == pre + (Strip(cc, s) + post)
  {
    var t := TrimStart(cc, s);
    var pre := TrimmedPrefix(cc, s);
    var post := TrimmedSuffix(cc, t);
    assert s == pre + (TrimEnd(cc, t) + post);
    assert Strip(cc, s) == TrimEnd(cc, t);
  }

  /** What TrimStart removes: all whitespace. */
  lemma TrimmedPrefix(cc: CharClasses, s: string) returns (pre: string)
    ensures AllSpace(cc, pre) && s == pre + TrimStart(cc, s)
  {
    var n := |s| - |TrimStart(cc, s)|;
    pre := s[..n];
    assert s == pre + s[n..];
    assert forall k :: 0 <= k < |pre| ==> pre[k] == s[k];
  }

  /** What TrimEnd removes: all whitespace. */
  lemma TrimmedSuffix(cc: CharClasses, s: string) returns (post: string)
    ensures AllSpace(cc, post) && s == TrimEnd(cc, s) + post
  {
    var r := TrimEnd(cc, s);
    post := s[|r|..];
    assert forall k :: 0 <= k < |post| ==> post[k] == s[|r| + k];
  }

  /** Step 3 distributes over concatenation: with `KeepSafe([c])` this fixes
      `KeepSafe` as the filter that keeps the safe characters in order. */
  lemma {:induction false} KeepSafeConcat(cc: CharClasses, a: string, b: string)
    ensures KeepSafe(cc, a + b) == KeepSafe(cc, a) + KeepSafe(cc, b)
  {
    if a == [] {
      assert a + b == b;
    } else {
      assert (a + b)[1..] == a[1..] + b;
      KeepSafeConcat(cc, a[1..], b);
    }
  }

  /** Step 2 distributes over concatenation: with `RemoveBackticks([c])` this
      fixes it as the deletion of backticks that keeps every other character,
      in order and as often as it occurs. */
  lemma {:induction false} RemoveBackticksConcat(a: string, b: string)
    ensures RemoveBackticks(a + b) == RemoveBackticks(a) + RemoveBackticks(b)
  {
    if a == [] {
      assert a + b == b;
    } else {
      assert (a + b)[1..] == a[1..] + b;
      RemoveBackticksConcat(a[1..], b);
    }
  }

  /** Step 2 is subsumed by step 3: a backtick is neither a word character,
      whitespace nor '-', so `re.sub` would have deleted it anyway. */
  lemma {:induction false} BacktickRemovalRedundant(cc: CharClasses, s: string)
    requires WellFormed(cc)
    ensures KeepSafe(cc, RemoveBackticks(s)) == KeepSafe(cc, s)
  {
    if s != [] {
      BacktickRemovalRedundant(cc, s[1..]);
    }
  }
}
