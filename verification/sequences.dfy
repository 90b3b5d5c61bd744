/** Generic facts about sequences used by the grid and the tag list: order
    preserving selection (subsequences), flattening a sequence of columns, and
    duplicate-free lists. */
module Sequences {

  /** `ys` is obtained from `xs` by deleting elements, keeping the order of the
      rest. */
  predicate IsSubsequence<T(==)>(ys: seq<T>, xs: seq<T>)
    decreases |xs|
  {
    if ys == [] then true
    else if xs == [] then false
    else (ys[0] == xs[0] && IsSubsequence(ys[1..], xs[1..])) || IsSubsequence(ys, xs[1..])
  }

  lemma {:induction false} SubsequenceRefl<T>(xs: seq<T>)
    ensures IsSubsequence(xs, xs)
  {
    if xs != [] {
      SubsequenceRefl(xs[1..]);
    }
  }

  /** A subsequence of a suffix is a subsequence of the whole. */
  lemma {:induction false} SubsequenceOfSuffix<T>(ys: seq<T>, xs: seq<T>, k: nat)
    requires k <= |xs|
    requires IsSubsequence(ys, xs[k..])
    ensures IsSubsequence(ys, xs)
    decreases k
  {
    if k > 0 && ys != [] {
      assert xs[k - 1..][1..] == xs[k..];
      SubsequenceOfSuffix(ys, xs, k - 1);
    }
  }

  lemma {:induction false} SubsequenceTrans<T>(zs: seq<T>, ys: seq<T>, xs: seq<T>)
    requires IsSubsequence(zs, ys) && IsSubsequence(ys, xs)
    ensures IsSubsequence(zs, xs)
    decreases |xs|
  {
    if zs != [] {
      if ys[0] == xs[0] && IsSubsequence(ys[1..], xs[1..]) {
        if zs[0] == ys[0] && IsSubsequence(zs[1..], ys[1..]) {
          SubsequenceTrans(zs[1..], ys[1..], xs[1..]);
        } else {
          SubsequenceTrans(zs, ys[1..], xs[1..]);
        }
      } else {
        SubsequenceTrans(zs, ys, xs[1..]);
      }
    }
  }

  /** Every element of a subsequence comes from the original. */
  lemma {:induction false} SubsequenceMembers<T>(ys: seq<T>, xs: seq<T>)
    requires IsSubsequence(ys, xs)
    ensures forall y :: y in ys ==> y in xs
    decreases |xs|
  {
    if ys != [] {
      if ys[0] == xs[0] && IsSubsequence(ys[1..], xs[1..]) {
        SubsequenceMembers(ys[1..], xs[1..]);
        assert ys == [ys[0]] + ys[1..];
      } else {
        SubsequenceMembers(ys, xs[1..]);
      }
    }
  }

  /** The columns laid end to end. */
  function Flatten<T>(ss: seq<seq<T>>): seq<T> {
    if ss == [] then [] else ss[0] + Flatten(ss[1..])
  }

  /** The total number of elements over all columns. */
  function SumLengths<T>(ss: seq<seq<T>>): nat {
    if ss == [] then 0 else |ss[0]| + SumLengths(ss[1..])
  }

  /** Appending one element to one column adds exactly that element to the
      flattened contents. */
  lemma {:induction false} AppendToColumn<T>(ss: seq<seq<T>>, k: nat, x: T)
    requires k < |ss|
    ensures multiset(Flatten(ss[k := ss[k] + [x]])) == multiset(Flatten(ss)) + multiset{x}
  {
    var ss' := ss[k := ss[k] + [x]];
    assert Flatten(ss') == ss'[0] + Flatten(ss'[1..]);
    assert Flatten(ss) == ss[0] + Flatten(ss[1..]);
    if k == 0 {
      assert ss'[1..] == ss[1..];
      assert multiset(ss'[0]) == multiset(ss[0]) + multiset{x};
    } else {
      assert ss'[1..] == ss[1..][k - 1 := ss[k] + [x]];
      AppendToColumn(ss[1..], k - 1, x);
      assert ss'[0] == ss[0];
    }
  }

  /** Appending one element to one column adds one to the total size. */
  lemma {:induction false} AppendToColumnSize<T>(ss: seq<seq<T>>, k: nat, x: T)
    requires k < |ss|
    ensures SumLengths(ss[k := ss[k] + [x]]) == SumLengths(ss) + 1
  {
    var ss' := ss[k := ss[k] + [x]];
    if k == 0 {
      assert ss'[1..] == ss[1..];
    } else {
      assert ss'[1..] == ss[1..][k - 1 := ss[k] + [x]];
      AppendToColumnSize(ss[1..], k - 1, x);
    }
  }

  predicate NoDuplicates<T(==)>(xs: seq<T>) {
    forall i, j :: 0 <= i < j < |xs| ==> xs[i] != xs[j]
  }

  /** `xs` with every element equal to `x` deleted (`xs.filter(y => y !== x)`). */
  function RemoveAll<T(==)>(xs: seq<T>, x: T): (r: seq<T>)
    ensures x !in r
    ensures multiset(r) == multiset(xs)[x := 0]
    ensures IsSubsequence(r, xs)
    ensures |r| <= |xs|
    ensures x !in xs ==> r == xs
  {
    if xs == [] then []
    else
      var rest := RemoveAll(xs[1..], x);
      assert xs == [xs[0]] + xs[1..];
      if xs[0] == x then rest else [xs[0]] + rest
  }

  /** Removing from a duplicate-free list keeps it duplicate-free. */
  lemma {:induction false} RemoveAllNoDuplicates<T>(xs: seq<T>, x: T)
    requires NoDuplicates(xs)
    ensures NoDuplicates(RemoveAll(xs, x))
  {
    if xs != [] {
      RemoveAllNoDuplicates(xs[1..], x);
      var rest := RemoveAll(xs[1..], x);
      if xs[0] != x {
        assert xs[0] !in xs[1..];
        assert multiset(rest)[xs[0]] == multiset(xs[1..])[xs[0]] == 0;
        var r := [xs[0]] + rest;
        forall i, j | 0 <= i < j < |r| ensures r[i] != r[j] {
          if i == 0 { assert r[j] in rest; } else { assert r[i] == rest[i - 1] && r[j] == rest[j - 1]; }
        }
      }
    }
  }

  // ---------------------------------------------------------------------------
  // Insertion-ordered sets

  /** Adding the elements of `xs` one by one to a JavaScript `Set` whose
      elements, in insertion order, are `seen`: an element already present
      is skipped. `[...new Set(xs)]` is `SetAddAll([], xs)`. */
  function SetAddAll<T(==)>(seen: seq<T>, xs: seq<T>): seq<T>
    decreases |xs|
  {
    if xs == [] then seen
    else SetAddAll(if xs[0] in seen then seen else seen + [xs[0]], xs[1..])
  }

  /** The elements of `xs` that are not in `seen`, in order. */
  function Without<T(==)>(xs: seq<T>, seen: seq<T>): (r: seq<T>)
    ensures |r| <= |xs|
  {
    if xs == [] then []
    else
      var rest := Without(xs[1..], seen);
      assert xs == [xs[0]] + xs[1..];
      if xs[0] in seen then rest else [xs[0]] + rest
  }

  /** Reference definition of duplicate removal: keep the first element and
      delete its later copies, then carry on with the rest. */
  function KeepFirst<T(==)>(xs: seq<T>): seq<T>
    decreases |xs|
  {
    if xs == [] then [] else [xs[0]] + KeepFirst(RemoveAll(xs[1..], xs[0]))
  }

  lemma KeepFirstCons<T>(x: T, w: seq<T>)
    ensures KeepFirst([x] + w) == [x] + KeepFirst(RemoveAll(w, x))
  {
    assert ([x] + w)[1..] == w;
  }

  /** Removing `x` after removing `seen` is removing `seen + [x]`. */
  lemma {:induction false} WithoutSnoc<T>(xs: seq<T>, seen: seq<T>, x: T)
    ensures Without(xs, seen + [x]) == RemoveAll(Without(xs, seen), x)
  {
    if xs != [] {
      WithoutSnoc(xs[1..], seen, x);
    }
  }

  lemma SetAddAllStep<T>(seen: seq<T>, xs: seq<T>)
    requires xs != []
    ensures SetAddAll(seen, xs) == SetAddAll(if xs[0] in seen then seen else seen + [xs[0]], xs[1..])
  {
  }

  lemma WithoutStep<T>(xs: seq<T>, seen: seq<T>)
    requires xs != []
    ensures Without(xs, seen) == if xs[0] in seen then Without(xs[1..], seen) else [xs[0]] + Without(xs[1..], seen)
  {
  }

  /** Adding a new element `x` to the set, then the rest of the list. */
  lemma AddNewThenRest<T>(seen: seq<T>, xs: seq<T>)
    requires xs != [] && xs[0] !in seen
    requires SetAddAll(seen + [xs[0]], xs[1..])
          == (seen + [xs[0]]) + KeepFirst(Without(xs[1..], seen + [xs[0]]))
    ensures SetAddAll(seen, xs) == (seen + [xs[0]]) + KeepFirst(RemoveAll(Without(xs[1..], seen), xs[0]))
  {
    SetAddAllStep(seen, xs);
    WithoutSnoc(xs[1..], seen, xs[0]);
  }

  /** The reference keeps a new first element and drops its later copies. */
  lemma KeepNewFirst<T>(seen: seq<T>, xs: seq<T>)
    requires xs != [] && xs[0] !in seen
    ensures KeepFirst(Without(xs, seen)) == [xs[0]] + KeepFirst(RemoveAll(Without(xs[1..], seen), xs[0]))
  {
    WithoutStep(xs, seen);
    KeepFirstCons(xs[0], Without(xs[1..], seen));
  }

  lemma AppendAssoc<T>(a: seq<T>, x: T, k: seq<T>)
    ensures (a + [x]) + k == a + ([x] + k)
  {
  }

  /** Adding `xs` to a set holding `seen` appends the first occurrences of
      the elements of `xs` that were not there yet. */
  lemma {:induction false} SetAddAllKeepsFirst<T>(seen: seq<T>, xs: seq<T>)
    ensures SetAddAll(seen, xs) == seen + KeepFirst(Without(xs, seen))
    decreases |xs|
  {
    if xs == [] {
      assert KeepFirst(Without(xs, seen)) == [];
    } else if xs[0] in seen {
      SetAddAllKeepsFirst(seen, xs[1..]);
      SetAddAllStep(seen, xs);
      WithoutStep(xs, seen);
    } else {
      SetAddAllKeepsFirst(seen + [xs[0]], xs[1..]);
      AddNewThenRest(seen, xs);
      KeepNewFirst(seen, xs);
      AppendAssoc(seen, xs[0], KeepFirst(RemoveAll(Without(xs[1..], seen), xs[0])));
    }
  }

  lemma {:induction false} WithoutNothing<T>(xs: seq<T>)
    ensures Without(xs, []) == xs
  {
    if xs != [] {
      WithoutNothing(xs[1..]);
    }
  }

  /** `[...new Set(xs)]` keeps the first occurrence of every element, in
      order. */
  lemma SetOfSequence<T>(xs: seq<T>)
    ensures SetAddAll([], xs) == KeepFirst(xs)
  {
    SetAddAllKeepsFirst([], xs);
    WithoutNothing(xs);
  }

  /** A set's elements are distinct, and they are exactly what was added. */
  lemma {:induction false} SetAddAllDistinct<T>(seen: seq<T>, xs: seq<T>)
    requires NoDuplicates(seen)
    ensures NoDuplicates(SetAddAll(seen, xs))
    ensures forall y :: y in SetAddAll(seen, xs) <==> y in seen || y in xs
    decreases |xs|
  {
    if xs != [] {
      var x := xs[0];
      var seen' := if x in seen then seen else seen + [x];
      assert NoDuplicates(seen') by {
        if x !in seen {
          forall i, j | 0 <= i < j < |seen'| ensures seen'[i] != seen'[j] {
            if j == |seen| {
              assert seen'[i] == seen[i];
            }
          }
        }
      }
      SetAddAllDistinct(seen', xs[1..]);
      assert xs == [x] + xs[1..];
    }
  }

  /** Adding to a set never reorders or drops what it already held. */
  lemma {:induction false} SetAddAllExtends<T>(seen: seq<T>, xs: seq<T>)
    ensures |seen| <= |SetAddAll(seen, xs)|
    ensures SetAddAll(seen, xs)[..|seen|] == seen
    decreases |xs|
  {
    if xs != [] {
      var seen' := if xs[0] in seen then seen else seen + [xs[0]];
      SetAddAllExtends(seen', xs[1..]);
      assert seen'[..|seen|] == seen;
    }
  }

  /** Building a set from a duplicate-free list gives the list back. */
  lemma {:induction false} SetOfDistinct<T>(seen: seq<T>, xs: seq<T>)
    requires NoDuplicates(seen + xs)
    ensures SetAddAll(seen, xs) == seen + xs
    decreases |xs|
  {
    if xs != [] {
      var all := seen + xs;
      forall i | 0 <= i < |seen| ensures seen[i] != xs[0] {
        assert all[i] == seen[i] && all[|seen|] == xs[0];
      }
      assert (seen + [xs[0]]) + xs[1..] == all;
      SetOfDistinct(seen + [xs[0]], xs[1..]);
    } else {
      assert seen + xs == seen;
    }
  }

  /** Adding `a` then `b` is adding `a + b`. */
  lemma {:induction false} SetAddAllAppend<T>(seen: seq<T>, a: seq<T>, b: seq<T>)
    ensures SetAddAll(seen, a + b) == SetAddAll(SetAddAll(seen, a), b)
    decreases |a|
  {
    if a != [] {
      assert (a + b)[0] == a[0];
      assert (a + b)[1..] == a[1..] + b;
      SetAddAllAppend(if a[0] in seen then seen else seen + [a[0]], a[1..], b);
    } else {
      assert a + b == b;
    }
  }
}
