/**
 * remove_duplicate_roots in lab1/main.py: keep the first root of each key.
 * The key (rounding the real and imaginary parts to 4 places) is a parameter.
 */
module Dedup {
  import opened Roots

  /** The keys of the elements of xs. */
  function KeySet<T, K>(xs: seq<T>, key: T -> K): (s: set<K>)
    ensures forall i | 0 <= i < |xs| :: key(xs[i]) in s
    ensures forall kk | kk in s :: exists i | 0 <= i < |xs| :: key(xs[i]) == kk
    decreases |xs|
  {
    if xs == [] then {}
    else KeySet(xs[..|xs| - 1], key) + {key(xs[|xs| - 1])}
  }

  /** The elements of xs whose key has not occurred before them, in order. */
  function Unique<T, K(==)>(xs: seq<T>, key: T -> K): (u: seq<T>)
    decreases |xs|
  {
    if xs == [] then []
    else
      var u := Unique(xs[..|xs| - 1], key);
      var x := xs[|xs| - 1];
      if key(x) in KeySet(u, key) then u else u + [x]
  }

  /** The position of the first element of xs with key kk. */
  function FirstIndex<T, K(==)>(xs: seq<T>, key: T -> K, kk: K): (r: nat)
    requires kk in KeySet(xs, key)
    ensures r < |xs| && key(xs[r]) == kk
    ensures forall j | 0 <= j < r :: key(xs[j]) != kk
    decreases |xs|
  {
    var prefix := xs[..|xs| - 1];
    if kk in KeySet(prefix, key) then
      var r := FirstIndex(prefix, key, kk);
      assert xs[r] == prefix[r];
      assert forall j | 0 <= j < r :: xs[j] == prefix[j];
      r
    else
      assert forall j | 0 <= j < |xs| - 1 :: xs[j] == prefix[j];
      |xs| - 1
  }

  /** The loop of remove_duplicate_roots, with seen as the set of kept keys. */
  method RemoveDuplicateRoots<T, K(==)>(roots: seq<T>, key: T -> K) returns (unique: seq<T>)
    ensures unique == Unique(roots, key)
  {
    unique := [];
    var seen: set<K> := {};
    for i := 0 to |roots|
      invariant unique == Unique(roots[..i], key)
      invariant seen == KeySet(unique, key)
    {
      assert roots[..i + 1][..i] == roots[..i];
      var root := roots[i];
      var rounded := key(root);
      if rounded !in seen {
        seen := seen + {rounded};
        unique := unique + [root];
        assert unique[..|unique| - 1] == Unique(roots[..i], key);
      }
    }
    assert roots[..|roots|] == roots;
  }

  lemma {:induction false} KeySetAppend<T, K>(xs: seq<T>, x: T, key: T -> K)
    ensures KeySet(xs + [x], key) == KeySet(xs, key) + {key(x)}
  {
    assert (xs + [x])[..|xs|] == xs;
  }

  /** The output keys are pairwise distinct. */
  lemma {:induction false} UniqueKeysDistinct<T, K>(xs: seq<T>, key: T -> K)
    ensures forall i, j | 0 <= i < j < |Unique(xs, key)| ::
      key(Unique(xs, key)[i]) != key(Unique(xs, key)[j])
    decreases |xs|
  {
    if xs != [] {
      var prefix, x := xs[..|xs| - 1], xs[|xs| - 1];
      var v := Unique(prefix, key);
      UniqueKeysDistinct(prefix, key);
      if key(x) !in KeySet(v, key) {
        var u := v + [x];
        assert Unique(xs, key) == u;
        forall i, j | 0 <= i < j < |u|
          ensures key(u[i]) != key(u[j])
        {
          if j == |v| {
            assert u[i] == v[i] && key(v[i]) in KeySet(v, key);
          } else {
            assert u[i] == v[i] && u[j] == v[j];
          }
        }
      } else {
        assert Unique(xs, key) == v;
      }
    }
  }

  /** The output is no longer than the input, and a nonempty input keeps its first element. */
  lemma {:induction false} UniqueLength<T, K>(xs: seq<T>, key: T -> K)
    ensures |Unique(xs, key)| <= |xs|
    ensures xs != [] ==> 1 <= |Unique(xs, key)| && Unique(xs, key)[0] == xs[0]
    decreases |xs|
  {
    if xs != [] {
      var prefix := xs[..|xs| - 1];
      UniqueLength(prefix, key);
      if prefix == [] {
        assert Unique(prefix, key) == [];
      } else {
        assert prefix[0] == xs[0];
      }
    }
  }

  /** Every input key appears in the output, and no other. */
  lemma {:induction false} UniqueKeySet<T, K>(xs: seq<T>, key: T -> K)
    ensures KeySet(Unique(xs, key), key) == KeySet(xs, key)
    decreases |xs|
  {
    if xs != [] {
      var prefix, x := xs[..|xs| - 1], xs[|xs| - 1];
      var v := Unique(prefix, key);
      UniqueKeySet(prefix, key);
      assert KeySet(xs, key) == KeySet(prefix, key) + {key(x)};
      if key(x) in KeySet(v, key) {
        assert Unique(xs, key) == v;
      } else {
        assert Unique(xs, key) == v + [x];
        KeySetAppend(v, x, key);
      }
    }
  }

  /** A key already present before the last element keeps its first position. */
  lemma FirstIndexOfPrefix<T, K>(xs: seq<T>, key: T -> K, kk: K)
    requires xs != [] && kk in KeySet(xs[..|xs| - 1], key)
    ensures kk in KeySet(xs, key)
    ensures FirstIndex(xs, key, kk) == FirstIndex(xs[..|xs| - 1], key, kk) < |xs| - 1
  {
  }

  /**
   * First-seen order: the i-th output element is the first input element with
   * its key.
   */
  lemma {:induction false} UniqueFirstSeen<T, K>(xs: seq<T>, key: T -> K)
    ensures forall i | 0 <= i < |Unique(xs, key)| ::
      key(Unique(xs, key)[i]) in KeySet(xs, key) &&
      Unique(xs, key)[i] == xs[FirstIndex(xs, key, key(Unique(xs, key)[i]))]
    decreases |xs|
  {
    if xs != [] {
      var prefix, x := xs[..|xs| - 1], xs[|xs| - 1];
      var v := Unique(prefix, key);
      UniqueFirstSeen(prefix, key);
      var u := Unique(xs, key);
      forall i | 0 <= i < |u|
        ensures key(u[i]) in KeySet(xs, key) && u[i] == xs[FirstIndex(xs, key, key(u[i]))]
      {
        if i < |v| {
          assert u[i] == v[i];
          FirstIndexOfPrefix(xs, key, key(v[i]));
          assert xs[FirstIndex(prefix, key, key(v[i]))] == prefix[FirstIndex(prefix, key, key(v[i]))];
        } else {
          UniqueKeySet(prefix, key);
          assert u == v + [x] && u[i] == x;
        }
      }
    }
  }

  /** ... and these first positions increase along the output. */
  lemma {:induction false} UniqueInInputOrder<T, K>(xs: seq<T>, key: T -> K)
    ensures forall i, j | 0 <= i < j < |Unique(xs, key)| ::
      key(Unique(xs, key)[i]) in KeySet(xs, key) && key(Unique(xs, key)[j]) in KeySet(xs, key) &&
      FirstIndex(xs, key, key(Unique(xs, key)[i])) < FirstIndex(xs, key, key(Unique(xs, key)[j]))
    decreases |xs|
  {
    if xs != [] {
      var prefix, x := xs[..|xs| - 1], xs[|xs| - 1];
      var v := Unique(prefix, key);
      UniqueInInputOrder(prefix, key);
      UniqueFirstSeen(prefix, key);
      UniqueKeySet(prefix, key);
      var u := Unique(xs, key);
      forall i, j | 0 <= i < j < |u|
        ensures key(u[i]) in KeySet(xs, key) && key(u[j]) in KeySet(xs, key)
        ensures FirstIndex(xs, key, key(u[i])) < FirstIndex(xs, key, key(u[j]))
      {
        assert u[i] == v[i];
        FirstIndexOfPrefix(xs, key, key(v[i]));
        if j < |v| {
          assert u[j] == v[j];
          FirstIndexOfPrefix(xs, key, key(v[j]));
        } else {
          assert u == v + [x] && u[j] == x;
        }
      }
    }
  }

  /** No two elements of xs share a key. */
  predicate DistinctKeys<T, K(==)>(xs: seq<T>, key: T -> K)
  {
    forall i, j | 0 <= i < j < |xs| :: key(xs[i]) != key(xs[j])
  }

  /** Dropping the last element keeps the keys distinct, and the last key is new. */
  lemma DistinctLast<T, K>(xs: seq<T>, key: T -> K)
    requires xs != [] && DistinctKeys(xs, key)
    ensures DistinctKeys(xs[..|xs| - 1], key) && key(xs[|xs| - 1]) !in KeySet(xs[..|xs| - 1], key)
  {
    var prefix, x := xs[..|xs| - 1], xs[|xs| - 1];
    forall i | 0 <= i < |prefix|
      ensures prefix[i] == xs[i] && key(prefix[i]) != key(x)
    {
    }
  }

  /** Removing duplicates from a sequence whose keys are already distinct changes nothing. */
  lemma {:induction false} UniqueOfDistinct<T, K>(xs: seq<T>, key: T -> K)
    requires DistinctKeys(xs, key)
    ensures Unique(xs, key) == xs
    decreases |xs|
  {
    if xs != [] {
      var prefix, x := xs[..|xs| - 1], xs[|xs| - 1];
      DistinctLast(xs, key);
      UniqueOfDistinct(prefix, key);
      assert xs == prefix + [x];
    }
  }

  /** Applying remove_duplicate_roots twice is the same as once. */
  lemma UniqueIdempotent<T, K>(xs: seq<T>, key: T -> K)
    ensures Unique(Unique(xs, key), key) == Unique(xs, key)
  {
    UniqueKeysDistinct(xs, key);
    UniqueOfDistinct(Unique(xs, key), key);
  }

  /**
   * The key remove_duplicate_roots compares: a float and a complex number have
   * keys of different shape, so Re(1.0) and Cx(1.0, 0.0) are never duplicates.
   */
  datatype RootKey = RealKey(x: real) | ComplexKey(re: real, im: real)

  function RoundedKey(round4: real -> real): Root -> RootKey
  {
    (z: Root) =>
      match z
      case Re(r) => RealKey(round4(r))
      case Cx(re, im) => ComplexKey(round4(re), round4(im))
  }
}
