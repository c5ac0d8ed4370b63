/** The string plumbing the loader uses to assemble Cypher: Python's
    `str.join`, and the split that reads a joined clause back. */
module Text {

  /** `sep.join(parts)`. */
  function Join(parts: seq<string>, sep: string): (r: string)
    ensures parts == [] ==> r == []
    ensures |parts| == 1 ==> r == parts[0]
    ensures parts != [] ==> parts[0] <= r
  {
    if parts == [] then []
    else if |parts| == 1 then parts[0]
    else parts[0] + sep + Join(parts[1..], sep)
  }

  /** `s.split(sep)` for a one-character separator: the pieces between separators. */
  function Split(s: string, sep: char): (parts: seq<string>)
    ensures |parts| >= 1
    ensures forall i :: 0 <= i < |parts| ==> sep !in parts[i]
  {
    if s == [] then [[]]
    else
      var rest := Split(s[1..], sep);
      if s[0] == sep then [[]] + rest
      else [[s[0]] + rest[0]] + rest[1..]
  }

  /** The number of occurrences of `c` in `s`. */
  function Count(s: string, c: char): (n: nat)
    ensures n <= |s|
    ensures n == 0 <==> c !in s
  {
    if s == [] then 0 else (if s[0] == c then 1 else 0) + Count(s[1..], c)
  }

  lemma {:induction false} CountConcat(a: string, b: string, c: char)
    ensures Count(a + b, c) == Count(a, c) + Count(b, c)
  {
    if a == [] {
      assert a + b == b;
    } else {
      assert (a + b)[1..] == a[1..] + b;
      CountConcat(a[1..], b, c);
    }
  }

  /** The number of occurrences of `c` in all of `parts` together. */
  function CountAll(parts: seq<string>, c: char): nat {
    if parts == [] then 0 else Count(parts[0], c) + CountAll(parts[1..], c)
  }

  /** Joining with a separator that does not hold `c` adds no `c`. */
  lemma {:induction false} CountJoin(parts: seq<string>, sep: string, c: char)
    requires c !in sep
    ensures Count(Join(parts, sep), c) == CountAll(parts, c)
  {
    if |parts| > 1 {
      CountJoin(parts[1..], sep, c);
      CountConcat(parts[0], sep, c);
      CountConcat(parts[0] + sep, Join(parts[1..], sep), c);
    } else if |parts| == 1 {
      assert parts[1..] == [];
    }
  }

  lemma {:induction false} CountAllConcat(a: seq<string>, b: seq<string>, c: char)
    ensures CountAll(a + b, c) == CountAll(a, c) + CountAll(b, c)
  {
    if a == [] {
      assert a + b == b;
    } else {
      assert (a + b)[1..] == a[1..] + b;
      CountAllConcat(a[1..], b, c);
    }
  }

  /** Pieces that each hold `c` exactly twice hold it twice per piece. */
  lemma {:induction false} CountAllTwice(parts: seq<string>, c: char)
    requires forall i :: 0 <= i < |parts| ==> Count(parts[i], c) == 2
    ensures CountAll(parts, c) == 2 * |parts|
  {
    if parts != [] {
      CountAllTwice(parts[1..], c);
    }
  }

  /** Pieces that do not hold `c` do not hold it together either. */
  lemma {:induction false} CountAllNone(parts: seq<string>, c: char)
    requires forall i :: 0 <= i < |parts| ==> Count(parts[i], c) == 0
    ensures CountAll(parts, c) == 0
  {
    if parts != [] {
      CountAllNone(parts[1..], c);
    }
  }

  lemma AppendAssoc<T>(x: seq<T>, y: seq<T>, z: seq<T>)
    ensures x + y + z == x + (y + z)
  {
  }

  /** A separator-free prefix ends up in the first piece. */
  lemma {:induction false} SplitSepFreePrefix(a: string, rest: string, sep: char)
    requires sep !in a
    ensures Split(a + rest, sep) == [a + Split(rest, sep)[0]] + Split(rest, sep)[1..]
  {
    if a == [] {
      assert a + rest == rest;
      assert a + Split(rest, sep)[0] == Split(rest, sep)[0];
    } else {
      assert (a + rest)[1..] == a[1..] + rest;
      SplitSepFreePrefix(a[1..], rest, sep);
      assert [a[0]] + (a[1..] + Split(rest, sep)[0]) == a + Split(rest, sep)[0];
    }
  }

  /** Splitting undoes joining when no piece holds the separator. */
  lemma {:induction false} SplitJoin(parts: seq<string>, sep: char)
    requires parts != []
    requires forall i :: 0 <= i < |parts| ==> sep !in parts[i]
    ensures Split(Join(parts, [sep]), sep) == parts
  {
    if |parts| == 1 {
      SplitSepFreePrefix(parts[0], [], sep);
      assert parts[0] + [] == parts[0];
    } else {
      var tail := Join(parts[1..], [sep]);
      SplitJoin(parts[1..], sep);
      assert Split([sep] + tail, sep) == [[]] + Split(tail, sep);
      assert Join(parts, [sep]) == parts[0] + ([sep] + tail);
      SplitSepFreePrefix(parts[0], [sep] + tail, sep);
      assert parts[0] + [] == parts[0];
      assert [parts[0]] + parts[1..] == parts;
    }
  }
}
