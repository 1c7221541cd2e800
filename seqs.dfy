/** Facts about nondecreasing sequences of keys: the order an in-order
    traversal of the tree keeps, duplicates included. */
module Seqs {

  /** Nondecreasing: equal neighbours are allowed. */
  predicate Sorted(s: seq<int>)
  {
    forall i, j :: 0 <= i < j < |s| ==> s[i] <= s[j]
  }

  predicate AllAtMost(s: seq<int>, x: int)
  {
    forall i :: 0 <= i < |s| ==> s[i] <= x
  }

  predicate AllAtLeast(s: seq<int>, x: int)
  {
    forall i :: 0 <= i < |s| ==> x <= s[i]
  }

  predicate AllAbove(s: seq<int>, x: int)
  {
    forall i :: 0 <= i < |s| ==> x < s[i]
  }

  /** A sequence with a pivot in the middle is sorted exactly when both
      sides are sorted and lie on the right side of the pivot. */
  lemma SortedAround(a: seq<int>, x: int, b: seq<int>)
    ensures Sorted(a + [x] + b) <==> Sorted(a) && Sorted(b) && AllAtMost(a, x) && AllAtLeast(b, x)
  {
    var s := a + [x] + b;
    if Sorted(s) {
      assert forall i :: 0 <= i < |a| ==> s[i] == a[i];
      assert forall i :: 0 <= i < |b| ==> s[|a| + 1 + i] == b[i];
      assert s[|a|] == x;
    }
    if Sorted(a) && Sorted(b) && AllAtMost(a, x) && AllAtLeast(b, x) {
      forall i, j | 0 <= i < j < |s| ensures s[i] <= s[j] {
        if j < |a| {
        } else if i < |a| {
          assert s[i] == a[i] <= x;
          if j > |a| { assert s[j] == b[j - |a| - 1]; }
        } else if i == |a| {
          assert s[j] == b[j - |a| - 1];
        } else {
          assert s[i] == b[i - |a| - 1] && s[j] == b[j - |a| - 1];
        }
      }
    }
  }

  /** Every element of a sorted sequence lies between its first and last. */
  lemma SortedBounds(s: seq<int>)
    requires Sorted(s) && |s| > 0
    ensures AllAtLeast(s, s[0]) && AllAtMost(s, s[|s| - 1])
  {
  }

  /** A bound on the elements of `b` and on `k` bounds every element of a
      sequence holding the elements of `b` and one more `k`. */
  lemma AtMostWithOneMore(a: seq<int>, b: seq<int>, k: int, x: int)
    requires multiset(a) == multiset(b) + multiset{k}
    requires AllAtMost(b, x) && k <= x
    ensures AllAtMost(a, x)
  {
    forall i | 0 <= i < |a| ensures a[i] <= x {
      assert a[i] in multiset(a);
      if a[i] != k {
        assert a[i] in multiset(b);
      }
    }
  }

  lemma AtLeastWithOneMore(a: seq<int>, b: seq<int>, k: int, x: int)
    requires multiset(a) == multiset(b) + multiset{k}
    requires AllAtLeast(b, x) && x <= k
    ensures AllAtLeast(a, x)
  {
    forall i | 0 <= i < |a| ensures x <= a[i] {
      assert a[i] in multiset(a);
      if a[i] != k {
        assert a[i] in multiset(b);
      }
    }
  }

  /** A bound on every element of `b` bounds a sequence with fewer elements. */
  lemma AtMostOfFewer(a: seq<int>, b: seq<int>, x: int)
    requires multiset(a) <= multiset(b) && AllAtMost(b, x)
    ensures AllAtMost(a, x)
  {
    forall i | 0 <= i < |a| ensures a[i] <= x {
      assert a[i] in multiset(a);
      assert a[i] in multiset(b);
    }
  }

  lemma AtLeastOfFewer(a: seq<int>, b: seq<int>, x: int)
    requires multiset(a) <= multiset(b) && AllAtLeast(b, x)
    ensures AllAtLeast(a, x)
  {
    forall i | 0 <= i < |a| ensures x <= a[i] {
      assert a[i] in multiset(a);
      assert a[i] in multiset(b);
    }
  }

  /** Taking out the element at `i` keeps a sorted sequence sorted and
      removes exactly one copy of that element. */
  lemma SortedRemoveAt(s: seq<int>, i: int)
    requires Sorted(s) && 0 <= i < |s|
    ensures Sorted(s[..i] + s[i + 1..])
    ensures multiset(s[..i] + s[i + 1..]) == multiset(s) - multiset{s[i]}
  {
    var r := s[..i] + s[i + 1..];
    assert forall j :: 0 <= j < |r| ==> r[j] == if j < i then s[j] else s[j + 1];
    assert s == s[..i] + [s[i]] + s[i + 1..];
    assert multiset(s) == multiset(s[..i]) + multiset{s[i]} + multiset(s[i + 1..]);
  }

  /** A sorted sequence is determined by its multiset of elements: so a
      sorted result with the right multiset is the only possible result. */
  lemma {:induction false} SortedUnique(a: seq<int>, b: seq<int>)
    requires Sorted(a) && Sorted(b) && multiset(a) == multiset(b)
    ensures a == b
  {
    if a != [] {
      assert b != [] by { assert |multiset(b)| == |multiset(a)|; }
      assert a[0] == b[0] by { SameFirst(a, b); }
      assert multiset(a[1..]) == multiset(b[1..]) by {
        assert a == [a[0]] + a[1..];
        assert b == [b[0]] + b[1..];
        assert multiset(a[1..]) == multiset(a) - multiset{a[0]};
        assert multiset(b[1..]) == multiset(b) - multiset{b[0]};
      }
      SortedUnique(a[1..], b[1..]);
      assert a == [a[0]] + a[1..];
      assert b == [b[0]] + b[1..];
    } else {
      assert |multiset(b)| == 0;
    }
  }

  /** Two sorted sequences with the same elements start alike. */
  lemma SameFirst(a: seq<int>, b: seq<int>)
    requires Sorted(a) && Sorted(b) && multiset(a) == multiset(b) && a != [] && b != []
    ensures a[0] == b[0]
  {
    assert a[0] in multiset(b);
    assert b[0] in multiset(a);
    var i :| 0 <= i < |a| && a[i] == b[0];
    var j :| 0 <= j < |b| && b[j] == a[0];
  }

  /** Sortedness survives removing elements on one side of a pivot. */
  lemma SortedShrinkLeft(a: seq<int>, a': seq<int>, x: int, b: seq<int>)
    requires Sorted(a + [x] + b) && Sorted(a') && multiset(a') <= multiset(a)
    ensures Sorted(a' + [x] + b)
  {
    SortedAround(a, x, b);
    AtMostOfFewer(a', a, x);
    SortedAround(a', x, b);
  }

  lemma SortedShrinkRight(a: seq<int>, x: int, b: seq<int>, b': seq<int>)
    requires Sorted(a + [x] + b) && Sorted(b') && multiset(b') <= multiset(b)
    ensures Sorted(a + [x] + b')
  {
    SortedAround(a, x, b);
    AtLeastOfFewer(b', b, x);
    SortedAround(a, x, b');
  }

  /** Moving the last element of the left side into the pivot's place keeps
      the sequence sorted. */
  lemma SortedPromoteLast(a: seq<int>, a': seq<int>, x: int, b: seq<int>)
    requires |a| > 0 && Sorted(a + [x] + b) && Sorted(a')
    requires multiset(a') == multiset(a) - multiset{a[|a| - 1]}
    ensures Sorted(a' + [a[|a| - 1]] + b)
  {
    var p := a[|a| - 1];
    SortedAround(a, x, b);
    SortedBounds(a);
    AtMostOfFewer(a', a, p);
    SortedAround(a', p, b);
  }

  /** Multiset bookkeeping for a node whose subtree gained or lost one key
      (the solver does not find these rearrangements unaided). */
  lemma AddToFirst<T>(a: multiset<T>, b: multiset<T>, c: multiset<T>, k: T)
    ensures (a + multiset{k}) + b + c == (a + b + c) + multiset{k}
  {
  }

  lemma AddToLast<T>(a: multiset<T>, b: multiset<T>, c: multiset<T>, k: T)
    ensures a + b + (c + multiset{k}) == (a + b + c) + multiset{k}
  {
  }

  lemma RemoveFromFirst<T>(a: multiset<T>, b: multiset<T>, c: multiset<T>, k: T)
    requires k in a || (k !in b && k !in c)
    ensures (a - multiset{k}) + b + c == (a + b + c) - multiset{k}
  {
  }

  lemma RemoveFromLast<T>(a: multiset<T>, b: multiset<T>, c: multiset<T>, k: T)
    requires k in c || (k !in a && k !in b)
    ensures a + b + (c - multiset{k}) == (a + b + c) - multiset{k}
  {
  }

  /** The root key `k` is replaced by a key `p` moved up out of `a`. */
  lemma ReplaceRoot<T>(a: multiset<T>, p: T, c: multiset<T>, k: T)
    requires p in a
    ensures (a - multiset{p}) + multiset{p} + c == (a + multiset{k} + c) - multiset{k}
  {
  }
}
