/** The parts of JavaScript's Array API that the room finder uses on its record lists. */
module JsArray {

  /** `r` can be obtained from `s` by deleting elements: the order of `s` is kept. */
  ghost predicate IsSubsequence<T>(r: seq<T>, s: seq<T>)
    decreases |s|
  {
    r == [] ||
    (s != [] && ((r[0] == s[0] && IsSubsequence(r[1..], s[1..])) || IsSubsequence(r, s[1..])))
  }

  /** `Array.prototype.filter`: the elements of `s` that satisfy `p`, each as often as in `s`,
      in the order of `s`. */
  function Filter<T(!new)>(p: T -> bool, s: seq<T>): (r: seq<T>)
    ensures |r| <= |s|
    ensures forall x {:trigger multiset(r)[x]} :: multiset(r)[x] == if p(x) then multiset(s)[x] else 0
    ensures forall x :: x in r <==> x in s && p(x)
    ensures IsSubsequence(r, s)
    ensures r == [] <==> forall x :: x in s ==> !p(x)
  {
    if s == [] then []
    else
      assert s == [s[0]] + s[1..];
      if p(s[0]) then [s[0]] + Filter(p, s[1..]) else Filter(p, s[1..])
  }

  /** `Array.prototype.map`. */
  function Map<A, B>(f: A -> B, s: seq<A>): (r: seq<B>)
    ensures |r| == |s|
    ensures forall i :: 0 <= i < |s| ==> r[i] == f(s[i])
  {
    seq(|s|, i requires 0 <= i < |s| => f(s[i]))
  }

  lemma FilterPair<T(!new)>(p: T -> bool, x: T, y: T)
    requires p(x) && p(y)
    ensures Filter(p, [x, y]) == [x, y]
  {
    assert [x, y][1..] == [y];
  }

  lemma FilterPairFirst<T(!new)>(p: T -> bool, x: T, y: T)
    requires p(x) && !p(y)
    ensures Filter(p, [x, y]) == [x]
  {
    assert [x, y][1..] == [y];
  }

  lemma FilterSingle<T(!new)>(p: T -> bool, x: T)
    requires p(x)
    ensures Filter(p, [x]) == [x]
  {
  }

  lemma MapPair<A, B>(f: A -> B, x: A, y: A)
    ensures Map(f, [x, y]) == [f(x), f(y)]
  {
  }

  lemma MapSingle<A, B>(f: A -> B, x: A)
    ensures Map(f, [x]) == [f(x)]
  {
  }

  lemma MapCons<A, B>(f: A -> B, s: seq<A>)
    requires s != []
    ensures Map(f, s) == [f(s[0])] + Map(f, s[1..])
  {
  }

  lemma {:induction false} SubsequenceOfSelf<T>(s: seq<T>)
    ensures IsSubsequence(s, s)
  {
    if s != [] {
      SubsequenceOfSelf(s[1..]);
    }
  }

  /** The values of a mapped array are the images of its elements. */
  lemma MapMembers<A, B>(f: A -> B, s: seq<A>, y: B)
    ensures y in Map(f, s) <==> exists x :: x in s && f(x) == y
  {
    if y in Map(f, s) {
      var k :| 0 <= k < |s| && Map(f, s)[k] == y;
      assert s[k] in s;
    }
    if exists x :: x in s && f(x) == y {
      var x :| x in s && f(x) == y;
      var k :| 0 <= k < |s| && s[k] == x;
      assert Map(f, s)[k] == y;
    }
  }

  /** A filter keeps everything exactly when every element passes. */
  lemma {:induction false} FilterKeepsAll<T(!new)>(p: T -> bool, s: seq<T>)
    requires forall x :: x in s ==> p(x)
    ensures Filter(p, s) == s
  {
    if s != [] {
      FilterKeepsAll(p, s[1..]);
    }
  }
}
