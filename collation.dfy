/** `Array.prototype.sort` with the comparator `(a, b) => a.localeCompare(b)`, as the category
    list uses it. The collation is modelled as lexicographic order by code point. */
module Collation {

  /** The order that stands in for `a.localeCompare(b) <= 0`: lexicographic by code point,
      so `a` is a prefix of `b`, or is smaller at the first position where they differ. */
  predicate Below(a: string, b: string)
    decreases |a|
  {
    a == [] || (b != [] && (a[0] < b[0] || (a[0] == b[0] && Below(a[1..], b[1..]))))
  }

  lemma {:induction false} BelowTotal(a: string, b: string)
    ensures Below(a, b) || Below(b, a)
    decreases |a|
  {
    if a != [] && b != [] && a[0] == b[0] {
      BelowTotal(a[1..], b[1..]);
    }
  }

  lemma {:induction false} BelowAntisymmetric(a: string, b: string)
    requires Below(a, b) && Below(b, a)
    ensures a == b
    decreases |a|
  {
    if a != [] {
      BelowAntisymmetric(a[1..], b[1..]);
      assert a == [a[0]] + a[1..] && b == [b[0]] + b[1..];
    }
  }

  lemma {:induction false} BelowTransitive(a: string, b: string, c: string)
    requires Below(a, b) && Below(b, c)
    ensures Below(a, c)
    decreases |a|
  {
    if a != [] && a[0] == b[0] && b[0] == c[0] {
      BelowTransitive(a[1..], b[1..], c[1..]);
    }
  }

  predicate Distinct(s: seq<string>)
  {
    forall i, j :: 0 <= i < j < |s| ==> s[i] != s[j]
  }

  /** Each element strictly above the one before it. */
  predicate Ascending(s: seq<string>)
  {
    forall i :: 0 < i < |s| ==> Below(s[i - 1], s[i]) && s[i - 1] != s[i]
  }

  /** Ascending with no element twice, stated for every pair. */
  predicate StrictlySorted(s: seq<string>)
  {
    forall i, j :: 0 <= i < j < |s| ==> Below(s[i], s[j]) && s[i] != s[j]
  }

  lemma {:induction false} AscendingIsStrictlySorted(s: seq<string>)
    requires Ascending(s)
    ensures StrictlySorted(s)
  {
    if |s| > 1 {
      var t := s[1..];
      assert Ascending(t) by {
        forall i | 0 < i < |t| ensures Below(t[i - 1], t[i]) && t[i - 1] != t[i] {
          assert t[i - 1] == s[i] && t[i] == s[i + 1];
        }
      }
      AscendingIsStrictlySorted(t);
      forall j | 1 < j < |s| ensures Below(s[0], s[j]) && s[0] != s[j] {
        assert s[j] == t[j - 1] && s[1] == t[0];
        BelowTransitive(s[0], s[1], s[j]);
        if s[0] == s[j] {
          BelowAntisymmetric(s[0], s[1]);
        }
      }
    }
  }

  /** Places `x` before the first element it is below. */
  function Insert(x: string, s: seq<string>): (r: seq<string>)
    ensures multiset(r) == multiset(s) + multiset{x}
    ensures |r| == |s| + 1 && (r[0] == x || (s != [] && r[0] == s[0]))
  {
    if s == [] then [x]
    else if Below(x, s[0]) then [x] + s
    else
      assert s == [s[0]] + s[1..];
      [s[0]] + Insert(x, s[1..])
  }

  lemma AscendingTail(s: seq<string>)
    requires Ascending(s) && s != []
    ensures Ascending(s[1..])
  {
    forall i | 0 < i < |s| - 1 ensures Below(s[1..][i - 1], s[1..][i]) && s[1..][i - 1] != s[1..][i] {
      assert s[1..][i - 1] == s[i];
    }
  }

  lemma ConsAscending(h: string, t: seq<string>)
    requires Ascending(t) && t != [] && Below(h, t[0]) && h != t[0]
    ensures Ascending([h] + t)
  {
    var r := [h] + t;
    forall i | 1 < i < |r| ensures Below(r[i - 1], r[i]) && r[i - 1] != r[i] {
      assert r[i - 1] == t[i - 2] && r[i] == t[i - 1];
    }
  }

  /** Inserting a new element keeps an ascending sequence ascending. */
  lemma {:induction false} InsertAscending(x: string, s: seq<string>)
    requires Ascending(s) && x !in s
    ensures Ascending(Insert(x, s))
  {
    if s != [] {
      if Below(x, s[0]) {
        ConsAscending(x, s);
      } else {
        AscendingTail(s);
        InsertAscending(x, s[1..]);
        BelowTotal(x, s[0]);
        var t := Insert(x, s[1..]);
        assert t[0] == x || t[0] == s[1];
        ConsAscending(s[0], t);
      }
    }
  }

  /** The sorted array: a permutation of `s`. */
  function Sort(s: seq<string>): (r: seq<string>)
    ensures multiset(r) == multiset(s)
  {
    if s == [] then []
    else
      var init := s[..|s| - 1];
      assert s == init + [s[|s| - 1]];
      Insert(s[|s| - 1], Sort(init))
  }

  /** Sorting an array with no duplicate gives one that is ascending. */
  lemma {:induction false} SortAscending(s: seq<string>)
    requires Distinct(s)
    ensures Ascending(Sort(s))
  {
    if s != [] {
      var init := s[..|s| - 1];
      var x := s[|s| - 1];
      SortAscending(init);
      assert x !in init;
      assert x !in multiset(Sort(init));
      InsertAscending(x, Sort(init));
    }
  }

  /** Sorting an array with no duplicate gives one that is strictly sorted. */
  lemma SortSorted(s: seq<string>)
    requires Distinct(s)
    ensures StrictlySorted(Sort(s))
  {
    SortAscending(s);
    AscendingIsStrictlySorted(Sort(s));
  }
}
