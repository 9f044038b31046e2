/** Ruby's array `uniq` and array union on sequences. */
module Seqs {

  /** No element occurs twice. */
  predicate NoDups<T(==,!new)>(s: seq<T>) {
    forall i, j :: 0 <= i < j < |s| ==> s[i] != s[j]
  }

  /** The position of the first occurrence of `x` in `s`. */
  function FirstIndex<T(==)>(s: seq<T>, x: T): (k: nat)
    requires x in s
    ensures k < |s| && s[k] == x
    ensures forall i :: 0 <= i < k ==> s[i] != x
  {
    if s[0] == x then 0 else 1 + FirstIndex(s[1..], x)
  }

  /** Appending elements does not move a first occurrence. */
  lemma FirstIndexAppend<T>(a: seq<T>, b: seq<T>, x: T)
    requires x in a
    ensures FirstIndex(a + b, x) == FirstIndex(a, x)
  {
    var k := FirstIndex(a, x);
    assert (a + b)[k] == x;
  }

  /** `Array#uniq`: keeps the first occurrence of every element, in order
      (the order is `UniqOrder`). */
  function Uniq<T(==,!new)>(s: seq<T>): (r: seq<T>)
    ensures NoDups(r)
    ensures forall x :: x in r <==> x in s
    ensures |r| <= |s|
  {
    if |s| == 0 then []
    else
      var u := Uniq(s[..|s| - 1]);
      var x := s[|s| - 1];
      assert s == s[..|s| - 1] + [x];
      if x in u then u else u + [x]
  }

  /** The elements of `uniq` appear in the order of their first occurrences. */
  lemma {:induction false} UniqOrder<T(!new)>(s: seq<T>)
    ensures forall i, j :: 0 <= i < j < |Uniq(s)| ==> FirstIndex(s, Uniq(s)[i]) < FirstIndex(s, Uniq(s)[j])
  {
    if |s| > 0 {
      var p := s[..|s| - 1];
      var u := Uniq(p);
      var x := s[|s| - 1];
      UniqOrder(p);
      assert s == p + [x];
      forall y | y in u
        ensures FirstIndex(s, y) == FirstIndex(p, y)
      {
        FirstIndexAppend(p, [x], y);
      }
      if x !in u {
        assert FirstIndex(s, x) == |s| - 1;
        assert Uniq(s) == u + [x];
      }
    }
  }

  /** A sequence without duplicates is its own `uniq`. */
  lemma {:induction false} UniqOfNoDups<T(!new)>(s: seq<T>)
    requires NoDups(s)
    ensures Uniq(s) == s
  {
    if |s| > 0 {
      var p := s[..|s| - 1];
      assert NoDups(p);
      UniqOfNoDups(p);
      var x := s[|s| - 1];
      assert x !in p;
      assert s == p + [x];
      assert s[..|s| - 1] == p;
      assert Uniq(s) == Uniq(p) + [x];
    }
  }

  /** Appending elements never disturbs the `uniq` of what came before. */
  lemma {:induction false} UniqAppendKeepsPrefix<T(!new)>(a: seq<T>, b: seq<T>)
    ensures |Uniq(a)| <= |Uniq(a + b)|
    ensures Uniq(a + b)[..|Uniq(a)|] == Uniq(a)
  {
    if |b| > 0 {
      var b' := b[..|b| - 1];
      UniqAppendKeepsPrefix(a, b');
      assert (a + b)[..|a + b| - 1] == a + b';
    } else {
      assert a + b == a;
    }
  }

  /** Appending only elements already present leaves a duplicate-free sequence unchanged. */
  lemma {:induction false} UniqAbsorbs<T(!new)>(u: seq<T>, b: seq<T>)
    requires NoDups(u)
    requires forall x :: x in b ==> x in u
    ensures Uniq(u + b) == u
  {
    if |b| == 0 {
      assert u + b == u;
      UniqOfNoDups(u);
    } else {
      var b' := b[..|b| - 1];
      UniqAbsorbs(u, b');
      assert (u + b)[..|u + b| - 1] == u + b';
      assert (u + b)[|u + b| - 1] == b[|b| - 1];
    }
  }

  /** Array union: the elements of both, without duplicates, `a`'s first
      (the order is `UnionOrder`). */
  function Union<T(==,!new)>(a: seq<T>, b: seq<T>): (r: seq<T>)
    ensures NoDups(r)
    ensures forall x :: x in r <==> x in a || x in b
    ensures NoDups(a) ==> |a| <= |r| && r[..|a|] == a
    ensures NoDups(a) && (forall x :: x in b ==> x in a) ==> r == a
  {
    UniqAppendKeepsPrefix(a, b);
    if NoDups(a) then
      UniqOfNoDups(a);
      if forall x :: x in b ==> x in a then
        UniqAbsorbs(a, b);
        Uniq(a + b)
      else
        Uniq(a + b)
    else
      Uniq(a + b)
  }

  /** The union lists `a`'s elements and then `b`'s new ones, each in the
      order of its first occurrence in `a` followed by `b`. */
  lemma UnionOrder<T(!new)>(a: seq<T>, b: seq<T>)
    ensures forall i, j :: 0 <= i < j < |Union(a, b)| ==>
      FirstIndex(a + b, Union(a, b)[i]) < FirstIndex(a + b, Union(a, b)[j])
  {
    UniqOrder(a + b);
  }
}
