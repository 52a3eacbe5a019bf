/** Sequences: places of elements, and lexicographic order. */
module Sequences {

  lemma Associates<T>(a: seq<T>, b: seq<T>, c: seq<T>)
    ensures a + b + c == a + (b + c)
  {
  }

  // ----- places

  /** The first place of an element, -1 when it does not occur. */
  function FirstIndex<T(==)>(s: seq<T>, x: T): (n: int)
    ensures -1 <= n < |s|
    ensures n >= 0 ==> s[n] == x && x !in s[..n]
    ensures n < 0 ==> x !in s
  {
    if s == [] then -1
    else if s[0] == x then 0
    else
      var n := FirstIndex(s[1..], x);
      assert n >= 0 ==> s[..n + 1] == [s[0]] + s[1..][..n];
      if n < 0 then -1 else n + 1
  }

  lemma {:induction false} FirstIndexAppend<T>(a: seq<T>, b: seq<T>, x: T)
    ensures FirstIndex(a + b, x) ==
      if FirstIndex(a, x) >= 0 then FirstIndex(a, x)
      else if FirstIndex(b, x) >= 0 then |a| + FirstIndex(b, x) else -1
  {
    if a == [] {
      assert a + b == b;
    } else {
      assert (a + b)[1..] == a[1..] + b;
      FirstIndexAppend(a[1..], b, x);
    }
  }

  /** The last place of an element, -1 when it does not occur. */
  function LastIndex<T(==)>(s: seq<T>, x: T): (n: int)
    ensures -1 <= n < |s|
    ensures n >= 0 ==> s[n] == x && x !in s[n + 1..]
    ensures n < 0 ==> x !in s
  {
    if s == [] then -1
    else if s[|s| - 1] == x then |s| - 1
    else
      var n := LastIndex(s[..|s| - 1], x);
      assert s == s[..|s| - 1] + [s[|s| - 1]];
      assert n >= 0 ==> s[n + 1..] == s[..|s| - 1][n + 1..] + [s[|s| - 1]];
      n
  }

  /** Joined with a separator, two sequences split again at its last place when it is not in the second. */
  lemma {:induction false} LastIndexBefore<T>(a: seq<T>, b: seq<T>, x: T)
    requires x !in b
    ensures LastIndex(a + [x] + b, x) == |a|
  {
    var s := a + [x] + b;
    if b == [] {
      assert s[|s| - 1] == x;
    } else {
      assert s[..|s| - 1] == a + [x] + b[..|b| - 1];
      LastIndexBefore(a, b[..|b| - 1], x);
    }
  }

  /** Places in a sequence, in order. */
  ghost predicate Increasing(at: seq<nat>) {
    forall k, l :: 0 <= k < l < |at| ==> at[k] < at[l]
  }

  // ----- lexicographic order

  /** Whether `a` sorts before `b`, as bytes.Compare and strings.Compare order them. */
  predicate Less(a: seq<int>, b: seq<int>) {
    if b == [] then false
    else if a == [] then true
    else a[0] < b[0] || (a[0] == b[0] && Less(a[1..], b[1..]))
  }

  lemma {:induction false} LessTrichotomy(a: seq<int>, b: seq<int>)
    ensures if a == b then !Less(a, b) && !Less(b, a) else Less(a, b) != Less(b, a)
  {
    if a == [] || b == [] {
      assert a == b <==> |a| == |b|;
    } else {
      LessTrichotomy(a[1..], b[1..]);
      assert a == [a[0]] + a[1..] && b == [b[0]] + b[1..];
    }
  }

  lemma {:induction false} LessTransitive(a: seq<int>, b: seq<int>, c: seq<int>)
    requires Less(a, b) && Less(b, c)
    ensures Less(a, c)
  {
    if a == [] {
      assert c != [];
    } else if a[0] == b[0] == c[0] {
      LessTransitive(a[1..], b[1..], c[1..]);
    }
  }

  lemma NotLessTransitive(c: seq<int>, b: seq<int>, a: seq<int>)
    requires !Less(c, b) && !Less(b, a)
    ensures !Less(c, a)
  {
    LessTrichotomy(a, b);
    LessTrichotomy(b, c);
    if a != b && b != c && Less(c, a) {
      LessTransitive(c, a, b);
    }
  }

  /** The code points of a string, by which strings are ordered. */
  function Codes(s: string): (codes: seq<int>)
    ensures |codes| == |s| && forall i :: 0 <= i < |s| ==> codes[i] == s[i] as int
  {
    seq(|s|, i requires 0 <= i < |s| => s[i] as int)
  }

  predicate StringLess(a: string, b: string) {
    Less(Codes(a), Codes(b))
  }

  /** Strings that are not ordered are equal. */
  lemma StringsCompare(a: string, b: string)
    ensures if a == b then !StringLess(a, b) && !StringLess(b, a) else StringLess(a, b) != StringLess(b, a)
  {
    LessTrichotomy(Codes(a), Codes(b));
    if Codes(a) == Codes(b) {
      assert forall i :: 0 <= i < |a| ==> Codes(a)[i] == a[i] as int && Codes(b)[i] == b[i] as int;
      assert a == b;
    }
  }
}
