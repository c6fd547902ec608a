/**
 * Python list comprehensions as functions on sequences: `[x for x in s if p(x)]`
 * is `Filter(s, p)` and `[f(x) for x in s]` is `Map(s, f)`. Both are defined by
 * peeling off the LAST element, the way a `for` loop that appends builds them.
 */
module Lists {

  /** The elements of `s` that satisfy `p`, in their original order. */
  function Filter<T>(s: seq<T>, p: T -> bool): (r: seq<T>)
    ensures |r| <= |s|
    ensures forall k :: 0 <= k < |r| ==> p(r[k])
  {
    if |s| == 0 then []
    else Filter(s[..|s| - 1], p) + (if p(s[|s| - 1]) then [s[|s| - 1]] else [])
  }

  /** `f` applied to every element of `s`, in order. */
  function Map<A, B>(s: seq<A>, f: A -> B): (r: seq<B>)
    ensures |r| == |s|
    ensures forall k :: 0 <= k < |s| ==> r[k] == f(s[k])
  {
    if |s| == 0 then [] else Map(s[..|s| - 1], f) + [f(s[|s| - 1])]
  }

  /** `a` is obtained from `b` by deleting elements, keeping the order of the rest. */
  predicate IsSubsequence<T(==)>(a: seq<T>, b: seq<T>)
  {
    if |a| == 0 then true
    else if |b| == 0 then false
    else (a[|a| - 1] == b[|b| - 1] && IsSubsequence(a[..|a| - 1], b[..|b| - 1]))
         || IsSubsequence(a, b[..|b| - 1])
  }

  lemma {:induction false} SubsequenceLength<T>(a: seq<T>, b: seq<T>)
    requires IsSubsequence(a, b)
    ensures |a| <= |b|
    ensures forall x :: x in a ==> x in b
  {
    if |a| == 0 {
    } else if a[|a| - 1] == b[|b| - 1] && IsSubsequence(a[..|a| - 1], b[..|b| - 1]) {
      SubsequenceLength(a[..|a| - 1], b[..|b| - 1]);
      assert a == a[..|a| - 1] + [a[|a| - 1]];
      assert b == b[..|b| - 1] + [b[|b| - 1]];
    } else {
      SubsequenceLength(a, b[..|b| - 1]);
      assert b == b[..|b| - 1] + [b[|b| - 1]];
    }
  }

  lemma SubsequenceSnoc<T>(a: seq<T>, b: seq<T>, x: T)
    requires IsSubsequence(a, b)
    ensures IsSubsequence(a + [x], b + [x])
    ensures IsSubsequence(a, b + [x])
  {
    assert (a + [x])[..|a|] == a;
    assert (b + [x])[..|b|] == b;
  }

  lemma {:induction false} SubsequenceTransitive<T>(a: seq<T>, b: seq<T>, c: seq<T>)
    requires IsSubsequence(a, b) && IsSubsequence(b, c)
    ensures IsSubsequence(a, c)
    decreases |c|
  {
    if |a| > 0 && |b| > 0 {
      var b', c' := b[..|b| - 1], c[..|c| - 1];
      if b[|b| - 1] == c[|c| - 1] && IsSubsequence(b', c') {
        if a[|a| - 1] == b[|b| - 1] && IsSubsequence(a[..|a| - 1], b') {
          SubsequenceTransitive(a[..|a| - 1], b', c');
        } else {
          SubsequenceTransitive(a, b', c');
        }
      } else {
        SubsequenceTransitive(a, b, c');
      }
    }
  }

  /** A filter keeps a subsequence of its input. */
  lemma {:induction false} FilterIsSubsequence<T>(s: seq<T>, p: T -> bool)
    ensures IsSubsequence(Filter(s, p), s)
  {
    if |s| > 0 {
      var init := s[..|s| - 1];
      FilterIsSubsequence(init, p);
      if p(s[|s| - 1]) {
        var r := Filter(s, p);
        assert r[..|r| - 1] == Filter(init, p);
      } else {
        assert Filter(s, p) == Filter(init, p);
        assert s[..|s| - 1] == init;
      }
    }
  }

  /** An element is kept exactly when it occurs in the input and passes. */
  lemma {:induction false} FilterMembership<T>(s: seq<T>, p: T -> bool, x: T)
    ensures x in Filter(s, p) <==> x in s && p(x)
  {
    if |s| > 0 {
      var init := s[..|s| - 1];
      FilterMembership(init, p, x);
      assert s == init + [s[|s| - 1]];
    }
  }

  /** A filter distributes over concatenation. */
  lemma {:induction false} FilterAppend<T>(a: seq<T>, b: seq<T>, p: T -> bool)
    ensures Filter(a + b, p) == Filter(a, p) + Filter(b, p)
  {
    if |b| == 0 {
      assert a + b == a;
    } else {
      var init := b[..|b| - 1];
      FilterAppend(a, init, p);
      assert (a + b)[..|a + b| - 1] == a + init;
    }
  }

  /** Filtering a list whose every element passes changes nothing. */
  lemma {:induction false} FilterAllPass<T>(s: seq<T>, p: T -> bool)
    requires forall k :: 0 <= k < |s| ==> p(s[k])
    ensures Filter(s, p) == s
  {
    if |s| > 0 {
      FilterAllPass(s[..|s| - 1], p);
    }
  }

  /** Mapping keeps a subsequence a subsequence. */
  lemma {:induction false} MapSubsequence<A, B>(a: seq<A>, b: seq<A>, f: A -> B)
    requires IsSubsequence(a, b)
    ensures IsSubsequence(Map(a, f), Map(b, f))
  {
    if |a| > 0 {
      var ma, mb := Map(a, f), Map(b, f);
      assert ma[..|ma| - 1] == Map(a[..|a| - 1], f);
      assert mb[..|mb| - 1] == Map(b[..|b| - 1], f);
      if a[|a| - 1] == b[|b| - 1] && IsSubsequence(a[..|a| - 1], b[..|b| - 1]) {
        MapSubsequence(a[..|a| - 1], b[..|b| - 1], f);
      } else {
        MapSubsequence(a, b[..|b| - 1], f);
      }
    }
  }

  /** A mapping distributes over concatenation. */
  lemma MapAppend<A, B>(a: seq<A>, b: seq<A>, f: A -> B)
    ensures Map(a + b, f) == Map(a, f) + Map(b, f)
  {
    assert |Map(a + b, f)| == |Map(a, f) + Map(b, f)|;
    forall k | 0 <= k < |a + b|
      ensures Map(a + b, f)[k] == (Map(a, f) + Map(b, f))[k]
    {
      if k >= |a| {
        assert (a + b)[k] == b[k - |a|];
      }
    }
  }

  /** Every element of a mapped list is the image of an element of the input. */
  lemma MapImage<A, B>(s: seq<A>, f: A -> B, y: B)
    requires y in Map(s, f)
    ensures exists x :: x in s && f(x) == y
  {
    var k :| 0 <= k < |Map(s, f)| && Map(s, f)[k] == y;
    assert s[k] in s;
  }

  /** `"".join(parts)`: the pieces one after another. */
  function Concat<T>(parts: seq<seq<T>>): (r: seq<T>)
    ensures parts == [] ==> r == []
  {
    if |parts| == 0 then [] else Concat(parts[..|parts| - 1]) + parts[|parts| - 1]
  }

  /** Joining distributes over concatenation of the list of pieces. */
  lemma {:induction false} ConcatAppend<T>(a: seq<seq<T>>, b: seq<seq<T>>)
    ensures Concat(a + b) == Concat(a) + Concat(b)
  {
    if |b| == 0 {
      assert a + b == a;
    } else {
      ConcatAppend(a, b[..|b| - 1]);
      assert (a + b)[..|a + b| - 1] == a + b[..|b| - 1];
    }
  }

  /** The text a loop `out += f(x)` accumulates grows by `f(x)` per element. */
  lemma ConcatMapSnoc<A, B>(s: seq<A>, x: A, f: A -> seq<B>)
    ensures Concat(Map(s + [x], f)) == Concat(Map(s, f)) + f(x)
  {
    MapAppend(s, [x], f);
    ConcatAppend(Map(s, f), [f(x)]);
    assert [f(x)][..0] == [];
  }

  /** One more turn of such a loop, over the prefixes of `s`. */
  lemma ConcatMapPrefix<A, B>(s: seq<A>, j: nat, f: A -> seq<B>)
    requires j < |s|
    ensures Concat(Map(s[..j + 1], f)) == Concat(Map(s[..j], f)) + f(s[j])
  {
    assert s[..j + 1] == s[..j] + [s[j]];
    ConcatMapSnoc(s[..j], s[j], f);
  }

  /**
   * Filtering on a property of the image and then mapping is mapping and then
   * filtering the images: `[f(x) for x in s if p(f(x))] == [y for y in map(f, s) if p(y)]`.
   */
  lemma {:induction false} MapFilterCommute<A, B>(s: seq<A>, q: A -> bool, f: A -> B, p: B -> bool)
    requires forall x :: q(x) == p(f(x))
    ensures Map(Filter(s, q), f) == Filter(Map(s, f), p)
  {
    if |s| > 0 {
      var init := s[..|s| - 1];
      var x := s[|s| - 1];
      MapFilterCommute(init, q, f, p);
      var m := Map(s, f);
      assert m[..|m| - 1] == Map(init, f);
      if q(x) {
        MapAppend(Filter(init, q), [x], f);
      } else {
        assert Filter(s, q) == Filter(init, q);
      }
    }
  }

  /** The text such a loop accumulates, with the contribution of one element singled out. */
  lemma ConcatMapSplit<A, B>(a: seq<A>, x: A, b: seq<A>, f: A -> seq<B>)
    ensures Concat(Map(a + [x] + b, f)) == Concat(Map(a, f)) + f(x) + Concat(Map(b, f))
  {
    MapAppend(a + [x], b, f);
    ConcatAppend(Map(a + [x], f), Map(b, f));
    ConcatMapSnoc(a, x, f);
  }

  lemma AppendRegroup<T>(a: seq<T>, b: seq<T>, c: seq<T>, d: seq<T>)
    ensures a + (b + c) + d == a + b + c + d
  {
  }

  lemma AppendRegroupTail<T>(a: seq<T>, b: seq<T>, c: seq<T>, d: seq<T>, e: seq<T>)
    ensures a + b + (c + d + e) == (a + b + c) + d + e
  {
  }
}
