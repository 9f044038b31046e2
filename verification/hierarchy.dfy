/** The parent-type graph (`@parents`): `root_types`, which collects the
    parentless ancestors of a type, and `most_specific_type`, which uses them
    to reconcile a sniffed type with a fallback type. */
module Hierarchy {
  import opened Seqs

  /** `@parents`: each type to the list of its registered parent types. */
  type ParentTable = map<string, seq<string>>

  /** The parents registered for `t`; an absent entry reads as no parents. */
  function ParentsOf(parents: ParentTable, t: string): (ps: seq<string>)
    ensures t !in parents ==> ps == []
    ensures t in parents ==> ps == parents[t]
  {
    if t in parents then parents[t] else []
  }

  /** `t` has at least one registered parent. */
  predicate HasParents(parents: ParentTable, t: string) {
    |ParentsOf(parents, t)| > 0
  }

  /** `rank` witnesses that the parent graph has no cycle: every parent that
      has an entry of its own ranks strictly below its child. */
  ghost predicate Ranked(parents: ParentTable, rank: map<string, nat>) {
    && (forall t :: t in parents ==> t in rank)
    && (forall t, i :: t in parents && 0 <= i < |parents[t]| && parents[t][i] in parents ==>
          t in rank && parents[t][i] in rank && rank[parents[t][i]] < rank[t])
  }

  /** The termination measure of `root_types`: zero on types without an entry. */
  ghost function Measure(parents: ParentTable, rank: map<string, nat>, t: string): nat {
    if t in parents && t in rank then rank[t] + 1 else 0
  }

  /** `root_types(type)`: the parentless ancestors of `type`, duplicates removed,
      or `[type]` itself when it has no parents. */
  function RootTypes(parents: ParentTable, ghost rank: map<string, nat>, t: string): (r: seq<string>)
    requires Ranked(parents, rank)
    ensures |r| > 0
    ensures NoDups(r)
    ensures forall x :: x in r ==> !HasParents(parents, x)
    decreases Measure(parents, rank, t), 1, 0
  {
    if HasParents(parents, t) then Uniq(FlatRoots(parents, rank, t, 0)) else [t]
  }

  /** The root lists of the parents of `t` from index `i` on, concatenated in order
      (the `flat_map` inside `root_types`). */
  function FlatRoots(parents: ParentTable, ghost rank: map<string, nat>, t: string, i: nat): (r: seq<string>)
    requires Ranked(parents, rank)
    requires t in parents && i <= |parents[t]|
    ensures i < |parents[t]| ==> |r| > 0
    ensures forall x :: x in r ==> !HasParents(parents, x)
    decreases Measure(parents, rank, t), 0, |parents[t]| - i
  {
    if i == |parents[t]| then []
    else RootTypes(parents, rank, parents[t][i]) + FlatRoots(parents, rank, t, i + 1)
  }

  /** `path` walks from a type to one of its parents, to one of theirs, and so on. */
  ghost predicate IsChain(parents: ParentTable, path: seq<string>) {
    |path| > 0 &&
    forall i :: 0 <= i < |path| - 1 ==> path[i] in parents && path[i + 1] in parents[path[i]]
  }

  ghost predicate ChainBetween(parents: ParentTable, path: seq<string>, t: string, a: string) {
    IsChain(parents, path) && path[0] == t && path[|path| - 1] == a
  }

  /** `a` is `t` or one of its ancestors. */
  ghost predicate Reaches(parents: ParentTable, t: string, a: string) {
    exists path :: ChainBetween(parents, path, t, a)
  }

  /** `x` is an ancestor of `t` (or `t` itself) that has no parents of its own. */
  ghost predicate IsRootOf(parents: ParentTable, t: string, x: string) {
    !HasParents(parents, x) && Reaches(parents, t, x)
  }

  /** Two types belong to one family when they have a common ancestor (either may be it). */
  ghost predicate SameFamily(parents: ParentTable, s: string, f: string) {
    exists a :: Reaches(parents, s, a) && Reaches(parents, f, a)
  }

  lemma ReachesSelf(parents: ParentTable, t: string)
    ensures Reaches(parents, t, t)
  {
    assert ChainBetween(parents, [t], t, t);
  }

  /** A parent is an ancestor. */
  lemma ReachesParent(parents: ParentTable, t: string, p: string)
    requires t in parents && p in parents[t]
    ensures Reaches(parents, t, p)
  {
    assert ChainBetween(parents, [t, p], t, p);
  }

  /** Prepending a child to a chain that starts at one of its parents. */
  lemma ReachesThroughParent(parents: ParentTable, t: string, p: string, a: string)
    requires t in parents && p in parents[t]
    requires Reaches(parents, p, a)
    ensures Reaches(parents, t, a)
  {
    var path :| ChainBetween(parents, path, p, a);
    var path' := [t] + path;
    assert forall i :: 1 <= i < |path'| ==> path'[i] == path[i - 1];
    assert ChainBetween(parents, path', t, a);
  }

  /** Ancestry is transitive. */
  lemma ReachesTransitive(parents: ParentTable, t: string, a: string, b: string)
    requires Reaches(parents, t, a) && Reaches(parents, a, b)
    ensures Reaches(parents, t, b)
  {
    var p1 :| ChainBetween(parents, p1, t, a);
    var p2 :| ChainBetween(parents, p2, a, b);
    var p := p1 + p2[1..];
    assert forall i :: |p1| <= i < |p| ==> p[i] == p2[i - |p1| + 1];
    assert ChainBetween(parents, p, t, b);
  }

  /** The members of the flattened list are the members of the parents' own root lists. */
  lemma {:induction false} FlatRootsMembers(parents: ParentTable, rank: map<string, nat>, t: string, i: nat, x: string)
    requires Ranked(parents, rank)
    requires t in parents && i <= |parents[t]|
    ensures x in FlatRoots(parents, rank, t, i) <==>
            exists j :: i <= j < |parents[t]| && x in RootTypes(parents, rank, parents[t][j])
    decreases |parents[t]| - i
  {
    if i < |parents[t]| {
      FlatRootsMembers(parents, rank, t, i + 1, x);
      var here := RootTypes(parents, rank, parents[t][i]);
      assert FlatRoots(parents, rank, t, i) == here + FlatRoots(parents, rank, t, i + 1);
      if x in here {
        assert i <= i < |parents[t]| && x in RootTypes(parents, rank, parents[t][i]);
      }
    }
  }

  /** Every element `root_types` returns is a parentless ancestor. */
  lemma {:induction false} RootTypesSound(parents: ParentTable, rank: map<string, nat>, t: string, x: string)
    requires Ranked(parents, rank)
    requires x in RootTypes(parents, rank, t)
    ensures IsRootOf(parents, t, x)
    decreases Measure(parents, rank, t)
  {
    if HasParents(parents, t) {
      FlatRootsMembers(parents, rank, t, 0, x);
      var j :| 0 <= j < |parents[t]| && x in RootTypes(parents, rank, parents[t][j]);
      RootTypesSound(parents, rank, parents[t][j], x);
      ReachesThroughParent(parents, t, parents[t][j], x);
    } else {
      ReachesSelf(parents, t);
    }
  }

  /** Every parentless ancestor is among the elements `root_types` returns. */
  lemma {:induction false} RootTypesComplete(parents: ParentTable, rank: map<string, nat>, path: seq<string>, t: string, x: string)
    requires Ranked(parents, rank)
    requires ChainBetween(parents, path, t, x) && !HasParents(parents, x)
    ensures x in RootTypes(parents, rank, t)
    decreases |path|
  {
    if |path| > 1 {
      var p := path[1];
      assert ChainBetween(parents, path[1..], p, x);
      RootTypesComplete(parents, rank, path[1..], p, x);
      var j :| 0 <= j < |parents[t]| && parents[t][j] == p;
      FlatRootsMembers(parents, rank, t, 0, x);
    }
  }

  /** `root_types(t)` holds exactly the parentless ancestors of `t`. */
  lemma RootTypesAreRoots(parents: ParentTable, rank: map<string, nat>, t: string)
    requires Ranked(parents, rank)
    ensures forall x :: x in RootTypes(parents, rank, t) <==> IsRootOf(parents, t, x)
  {
    forall x
      ensures x in RootTypes(parents, rank, t) <==> IsRootOf(parents, t, x)
    {
      if x in RootTypes(parents, rank, t) {
        RootTypesSound(parents, rank, t, x);
      }
      if IsRootOf(parents, t, x) {
        var path :| ChainBetween(parents, path, t, x);
        RootTypesComplete(parents, rank, path, t, x);
      }
    }
  }

  /** `root_types(t) == [t]` exactly when `t` has no registered parents. */
  lemma RootTypesSelf(parents: ParentTable, rank: map<string, nat>, t: string)
    requires Ranked(parents, rank)
    ensures RootTypes(parents, rank, t) == [t] <==> !HasParents(parents, t)
  {
    if HasParents(parents, t) {
      assert t !in RootTypes(parents, rank, t);
    }
  }

  /** The roots of an ancestor are roots of its descendants. */
  lemma RootsOfAncestor(parents: ParentTable, rank: map<string, nat>, t: string, a: string)
    requires Ranked(parents, rank)
    requires Reaches(parents, t, a)
    ensures forall x :: x in RootTypes(parents, rank, a) ==> x in RootTypes(parents, rank, t)
  {
    RootTypesAreRoots(parents, rank, t);
    RootTypesAreRoots(parents, rank, a);
    forall x | x in RootTypes(parents, rank, a)
      ensures x in RootTypes(parents, rank, t)
    {
      ReachesTransitive(parents, t, a, x);
    }
  }

  /** Along a chain of two or more types, the rank falls: no type is its own ancestor. */
  lemma {:induction false} RankedIsAcyclic(parents: ParentTable, rank: map<string, nat>, path: seq<string>)
    requires Ranked(parents, rank)
    requires IsChain(parents, path) && |path| > 1
    ensures path[0] != path[|path| - 1]
  {
    var n := |path|;
    assert path[0] in parents;
    var k := 1;
    while k < n - 1
      invariant 1 <= k <= n - 1
      invariant path[k] in parents ==> rank[path[k]] < rank[path[0]]
    {
      k := k + 1;
    }
  }

  /** Do two lists share an element? (A non-empty array intersection.) */
  predicate Overlap(a: seq<string>, b: seq<string>) {
    exists x :: x in a && x in b
  }

  /** `most_specific_type`: the fallback wins
      when the two share a root type, the sniffed type otherwise. */
  function MostSpecific(parents: ParentTable, ghost rank: map<string, nat>, sniffed: string, fallback: string): (r: string)
    requires Ranked(parents, rank)
    ensures r == sniffed || r == fallback
    ensures Overlap(RootTypes(parents, rank, sniffed), RootTypes(parents, rank, fallback)) ==> r == fallback
    ensures !Overlap(RootTypes(parents, rank, sniffed), RootTypes(parents, rank, fallback)) ==> r == sniffed
  {
    if Overlap(RootTypes(parents, rank, sniffed), RootTypes(parents, rank, fallback)) then fallback else sniffed
  }

  /** Sharing a root type is the same as sharing any ancestor. */
  lemma OverlapIsSameFamily(parents: ParentTable, rank: map<string, nat>, s: string, f: string)
    requires Ranked(parents, rank)
    ensures Overlap(RootTypes(parents, rank, s), RootTypes(parents, rank, f)) <==> SameFamily(parents, s, f)
  {
    if Overlap(RootTypes(parents, rank, s), RootTypes(parents, rank, f)) {
      var x :| x in RootTypes(parents, rank, s) && x in RootTypes(parents, rank, f);
      RootTypesSound(parents, rank, s, x);
      RootTypesSound(parents, rank, f, x);
    }
    if SameFamily(parents, s, f) {
      var a :| Reaches(parents, s, a) && Reaches(parents, f, a);
      var x := RootTypes(parents, rank, a)[0];
      RootsOfAncestor(parents, rank, s, a);
      RootsOfAncestor(parents, rank, f, a);
      assert x in RootTypes(parents, rank, s) && x in RootTypes(parents, rank, f);
    }
  }

  /** The reconciliation rule in terms of the type graph: the fallback wins
      exactly when the two types have a common ancestor. */
  lemma MostSpecificByFamily(parents: ParentTable, rank: map<string, nat>, sniffed: string, fallback: string)
    requires Ranked(parents, rank)
    ensures SameFamily(parents, sniffed, fallback) ==> MostSpecific(parents, rank, sniffed, fallback) == fallback
    ensures !SameFamily(parents, sniffed, fallback) ==> MostSpecific(parents, rank, sniffed, fallback) == sniffed
  {
    OverlapIsSameFamily(parents, rank, sniffed, fallback);
  }

  /** A fallback that is an ancestor of the sniffed type, or a descendant of it, wins. */
  lemma MostSpecificAncestry(parents: ParentTable, rank: map<string, nat>, sniffed: string, fallback: string)
    requires Ranked(parents, rank)
    requires Reaches(parents, sniffed, fallback) || Reaches(parents, fallback, sniffed)
    ensures MostSpecific(parents, rank, sniffed, fallback) == fallback
  {
    ReachesSelf(parents, sniffed);
    ReachesSelf(parents, fallback);
    MostSpecificByFamily(parents, rank, sniffed, fallback);
  }

  /** Reconciling a type with itself gives that type. */
  lemma MostSpecificSame(parents: ParentTable, rank: map<string, nat>, t: string)
    requires Ranked(parents, rank)
    ensures MostSpecific(parents, rank, t, t) == t
  {
  }
}
