/** `String.prototype.split` with a one-character separator and
    `Array.prototype.join`, with JavaScript's semantics: a separator at either
    end yields an empty field there, and the empty string splits into one
    empty field. */
module JsStrings {

  /** The number of times `d` occurs in `s`. */
  function Occurrences(s: string, d: char): nat
  {
    if s == [] then 0 else (if s[0] == d then 1 else 0) + Occurrences(s[1..], d)
  }

  /** The position of the first `d` in `s`, or `|s|` when there is none. */
  function Find(s: string, d: char): (i: nat)
    ensures i <= |s|
    ensures i < |s| ==> s[i] == d
    ensures d !in s[..i]
  {
    if s == [] || s[0] == d then 0
    else
      var j := Find(s[1..], d);
      assert s[..j + 1] == [s[0]] + s[1..][..j];
      j + 1
  }

  /** `s.split(d)` for a single-character separator `d`: the text before
      the first separator, then the fields of the text after it. Every field
      is free of the separator. */
  function Split(s: string, d: char): (parts: seq<string>)
    ensures |parts| >= 1
    ensures NoSeparator(parts, d)
    decreases |s|
  {
    var i := Find(s, d);
    if i == |s| then [s] else [s[..i]] + Split(s[i + 1..], d)
  }

  /** `parts.join(d)` for a single-character separator `d`. */
  function Join(parts: seq<string>, d: char): (s: string)
    ensures |parts| >= 1 ==> |s| >= |parts| - 1
  {
    if |parts| == 0 then ""
    else if |parts| == 1 then parts[0]
    else parts[0] + [d] + Join(parts[1..], d)
  }

  /** A join of separator-free fields has one separator fewer than it has
      fields. */
  lemma {:induction false} JoinOccurrences(parts: seq<string>, d: char)
    requires |parts| >= 1 && NoSeparator(parts, d)
    ensures Occurrences(Join(parts, d), d) == |parts| - 1
    decreases |parts|
  {
    assert d !in parts[0];
    OccurrencesAbsent(parts[0], d);
    if |parts| > 1 {
      var rest := Join(parts[1..], d);
      assert NoSeparator(parts[1..], d);
      JoinOccurrences(parts[1..], d);
      OccurrencesAppend(parts[0] + [d], rest, d);
      OccurrencesAppend(parts[0], [d], d);
    }
  }

  /** No field contains the separator. */
  predicate NoSeparator(parts: seq<string>, d: char)
  {
    forall i :: 0 <= i < |parts| ==> d !in parts[i]
  }

  /** A position with no `d` before it, holding `d` or at the end, is the
      one `Find` returns. */
  lemma {:induction false} FindUnique(s: string, d: char, k: nat)
    requires k <= |s|
    requires k < |s| ==> s[k] == d
    requires d !in s[..k]
    ensures Find(s, d) == k
    decreases k
  {
    if k > 0 {
      assert s[0] == s[..k][0];
      assert s[1..][..k - 1] == s[..k][1..];
      FindUnique(s[1..], d, k - 1);
    }
  }

  /** Adding a separator and any tail leaves the first separator where it
      was, or makes the added one the first. */
  lemma FindAround(s: string, d: char, t: string)
    ensures Find(s + [d] + t, d) == Find(s, d)
  {
    var u := s + [d] + t;
    var k := Find(s, d);
    assert u[..k] == s[..k];
    assert u[k] == d;
    FindUnique(u, d, k);
  }

  lemma {:induction false} OccurrencesAppend(a: string, b: string, d: char)
    ensures Occurrences(a + b, d) == Occurrences(a, d) + Occurrences(b, d)
    decreases |a|
  {
    if a != [] {
      assert (a + b)[0] == a[0];
      assert (a + b)[1..] == a[1..] + b;
      OccurrencesAppend(a[1..], b, d);
    } else {
      assert a + b == b;
    }
  }

  lemma {:induction false} OccurrencesAbsent(s: string, d: char)
    requires d !in s
    ensures Occurrences(s, d) == 0
    decreases |s|
  {
    if s != [] {
      assert s[0] != d;
      OccurrencesAbsent(s[1..], d);
    }
  }

  /** A split has one field more than there are separators. */
  lemma {:induction false} SplitLength(s: string, d: char)
    ensures |Split(s, d)| == Occurrences(s, d) + 1
    decreases |s|
  {
    var i := Find(s, d);
    if i == |s| {
      assert s[..i] == s;
      OccurrencesAbsent(s, d);
    } else {
      SplitLength(s[i + 1..], d);
      assert s == s[..i] + ([d] + s[i + 1..]);
      OccurrencesAppend(s[..i], [d] + s[i + 1..], d);
      assert ([d] + s[i + 1..])[1..] == s[i + 1..];
      OccurrencesAbsent(s[..i], d);
    }
  }

  /** A string without the separator is a single field. */
  lemma SplitWithoutSeparator(s: string, d: char)
    requires d !in s
    ensures Split(s, d) == [s]
  {
    assert s[..|s|] == s;
    FindUnique(s, d, |s|);
  }

  /** Concatenation regrouped, kept apart so that callers reason about
      the two groupings without unfolding the sequences. */
  lemma ConcatAssoc<T>(x: seq<T>, y: seq<T>, z: seq<T>)
    ensures x + (y + z) == (x + y) + z
  {
  }

  /** The pieces of `s + [d] + t` around position `k` of `s`. */
  lemma AroundSlices(s: string, d: char, t: string, k: nat)
    requires k <= |s|
    ensures (s + [d] + t)[..k] == s[..k]
    ensures k == |s| ==> s[..k] == s && (s + [d] + t)[k + 1..] == t
    ensures k < |s| ==> (s + [d] + t)[k + 1..] == s[k + 1..] + [d] + t
  {
  }

  /** `SplitAround` when `s` has no separator: the added one ends the
      first field. */
  lemma SplitAroundFree(s: string, d: char, t: string)
    requires Find(s, d) == |s|
    ensures Split(s + [d] + t, d) == Split(s, d) + Split(t, d)
  {
    FindAround(s, d, t);
    AroundSlices(s, d, t, |s|);
  }

  /** `SplitAround` when `s` has a separator at `k`, given the property for
      the text after it. */
  lemma SplitAroundStep(s: string, d: char, t: string, k: nat)
    requires k == Find(s, d) && k < |s|
    requires Split(s[k + 1..] + [d] + t, d) == Split(s[k + 1..], d) + Split(t, d)
    ensures Split(s + [d] + t, d) == Split(s, d) + Split(t, d)
  {
    FindAround(s, d, t);
    AroundSlices(s, d, t, k);
    SplitAt(s, d, k);
    SplitAt(s + [d] + t, d, k);
    ConcatAssoc([s[..k]], Split(s[k + 1..], d), Split(t, d));
  }

  /** Splitting at the first separator, at position `k`. */
  lemma SplitAt(s: string, d: char, k: nat)
    requires k == Find(s, d) && k < |s|
    ensures Split(s, d) == [s[..k]] + Split(s[k + 1..], d)
  {
  }

  /** A separator between two strings puts the fields of the first before
      the fields of the second. */
  lemma {:induction false} SplitAround(s: string, d: char, t: string)
    ensures Split(s + [d] + t, d) == Split(s, d) + Split(t, d)
    decreases |s|
  {
    var k := Find(s, d);
    if k < |s| {
      SplitAround(s[k + 1..], d, t);
      SplitAroundStep(s, d, t, k);
    } else {
      SplitAroundFree(s, d, t);
    }
  }

  /** A separator-free field followed by a separator starts the split. */
  lemma SplitCons(x: string, d: char, t: string)
    requires d !in x
    ensures Split(x + [d] + t, d) == [x] + Split(t, d)
  {
    SplitAround(x, d, t);
    SplitWithoutSeparator(x, d);
  }

  /** Four separator-free fields joined by separators split back into
      those four fields. */
  lemma SplitFour(a: string, b: string, c: string, e: string, d: char)
    requires d !in a && d !in b && d !in c && d !in e
    ensures Split(a + [d] + b + [d] + c + [d] + e, d) == [a, b, c, e]
  {
    var t1 := c + [d] + e;
    var t2 := b + [d] + t1;
    RegroupFour(a, b, c, e, d);
    SplitThree(b, c, e, d);
    SplitCons(a, d, t2);
    assert [a] + [b, c, e] == [a, b, c, e];
  }

  /** Three separator-free fields joined by separators split back into
      those three fields. */
  lemma SplitThree(b: string, c: string, e: string, d: char)
    requires d !in b && d !in c && d !in e
    ensures Split(b + [d] + (c + [d] + e), d) == [b, c, e]
  {
    SplitCons(c, d, e);
    SplitWithoutSeparator(e, d);
    SplitCons(b, d, c + [d] + e);
    assert [b] + ([c] + [e]) == [b, c, e];
  }

  /** The string of `SplitFour`, regrouped from the right. */
  lemma RegroupFour(a: string, b: string, c: string, e: string, d: char)
    ensures a + [d] + b + [d] + c + [d] + e == a + [d] + (b + [d] + (c + [d] + e))
  {
  }

  /** Joining a field onto a non-empty list of fields. */
  lemma JoinCons(x: string, rest: seq<string>, d: char)
    requires |rest| >= 1
    ensures Join([x] + rest, d) == x + [d] + Join(rest, d)
  {
    assert ([x] + rest)[1..] == rest;
  }

  /** `JoinSplit` for a string whose first separator is at `k`, given the
      property for the text after it. */
  lemma JoinSplitStep(s: string, d: char, k: nat)
    requires k == Find(s, d) && k < |s|
    requires Join(Split(s[k + 1..], d), d) == s[k + 1..]
    ensures Join(Split(s, d), d) == s
  {
    assert s == s[..k] + [d] + s[k + 1..];
    SplitAt(s, d, k);
    JoinCons(s[..k], Split(s[k + 1..], d), d);
  }

  /** Joining the fields of a split gives back the string. */
  lemma {:induction false} JoinSplit(s: string, d: char)
    ensures Join(Split(s, d), d) == s
    decreases |s|
  {
    var k := Find(s, d);
    if k < |s| {
      JoinSplit(s[k + 1..], d);
      JoinSplitStep(s, d, k);
    }
  }

  /** Splitting a join of separator-free fields gives back the fields. */
  lemma {:induction false} SplitJoin(parts: seq<string>, d: char)
    requires |parts| >= 1
    requires NoSeparator(parts, d)
    ensures Split(Join(parts, d), d) == parts
    decreases |parts|
  {
    assert d !in parts[0];
    if |parts| > 1 {
      var rest := parts[1..];
      assert NoSeparator(rest, d);
      SplitJoin(rest, d);
      assert Join(parts, d) == parts[0] + [d] + Join(rest, d);
      SplitAround(parts[0], d, Join(rest, d));
      SplitWithoutSeparator(parts[0], d);
      assert [parts[0]] + rest == parts;
    } else {
      SplitWithoutSeparator(parts[0], d);
    }
  }

  /** Joining two non-empty lists of fields puts one separator between them. */
  lemma {:induction false} JoinAppend(p: seq<string>, q: seq<string>, d: char)
    requires |p| >= 1 && |q| >= 1
    ensures Join(p + q, d) == Join(p, d) + [d] + Join(q, d)
    decreases |p|
  {
    if |p| > 1 {
      JoinAppend(p[1..], q, d);
      assert (p + q)[1..] == p[1..] + q;
    } else {
      assert (p + q)[1..] == q;
    }
  }

  /** Appending a separator and a separator-free tail adds exactly one
      field, and keeps every field before it. */
  lemma SplitAppendField(s: string, d: char, t: string)
    requires d !in t
    ensures Split(s + [d] + t, d) == Split(s, d) + [t]
  {
    SplitAround(s, d, t);
    SplitWithoutSeparator(t, d);
  }
}
