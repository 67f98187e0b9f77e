/** Keep-first deduplication, the policy both converters apply: walk a
    sequence in order and keep an element only when no element kept so far
    has the same key. The SRT converter keys cues by their text and checks
    them against every kept entry; the TXT converter keys lines and
    sentences by themselves. */
module Dedup {

  /** Some element of `xs` has key `k`. */
  predicate HasKey<T, K(==)>(xs: seq<T>, k: K, key: T -> K) {
    exists j :: 0 <= j < |xs| && key(xs[j]) == k
  }

  /** No two elements of `xs` share a key. */
  predicate DistinctKeys<T, K(==)>(xs: seq<T>, key: T -> K) {
    forall i, j :: 0 <= i < j < |xs| ==> key(xs[i]) != key(xs[j])
  }

  /** `a` is `b` with some elements left out, the rest in their order. */
  predicate IsSubsequence<T(==)>(a: seq<T>, b: seq<T>)
    decreases |b|
  {
    a == [] || (b != [] && ((a[0] == b[0] && IsSubsequence(a[1..], b[1..])) || IsSubsequence(a, b[1..])))
  }

  /** `acc` extended by the elements of `xs`, in order, whose key is not
      yet present when they are reached. */
  function KeepFirst<T, K(==)>(acc: seq<T>, xs: seq<T>, key: T -> K): (r: seq<T>)
    decreases |xs|
    ensures |acc| <= |r| <= |acc| + |xs|
  {
    if xs == [] then acc
    else KeepFirst(if HasKey(acc, key(xs[0]), key) then acc else acc + [xs[0]], xs[1..], key)
  }

  /** The elements of xs[i..] whose key does not occur earlier in `xs`, in
      order: the first occurrences, picked out by looking back at the input
      rather than at what has been kept. */
  function FirstsFrom<T, K(==)>(xs: seq<T>, key: T -> K, i: nat): seq<T>
    requires i <= |xs|
    decreases |xs| - i
  {
    if i == |xs| then []
    else (if HasKey(xs[..i], key(xs[i]), key) then [] else [xs[i]]) + FirstsFrom(xs, key, i + 1)
  }

  /** Keep-first deduplication keeps exactly the first occurrence of each
      key, in source order. */
  lemma KeepFirstIsFirsts<T, K(!new)>(xs: seq<T>, key: T -> K)
    ensures KeepFirst([], xs, key) == FirstsFrom(xs, key, 0)
  {
    assert xs[0..] == xs;
    KeepFirstFirstsFrom([], xs, key, 0);
  }

  lemma {:induction false} KeepFirstFirstsFrom<T, K(!new)>(acc: seq<T>, xs: seq<T>, key: T -> K, i: nat)
    requires i <= |xs|
    requires SameKeys(acc, xs[..i], key)
    ensures KeepFirst(acc, xs[i..], key) == acc + FirstsFrom(xs, key, i)
    decreases |xs| - i
  {
    if i == |xs| {
      assert xs[i..] == [];
    } else {
      var x := xs[i];
      var seen := HasKey(acc, key(x), key);
      var acc' := if seen then acc else acc + [x];
      var rest := FirstsFrom(xs, key, i + 1);
      assert KeepFirst(acc, xs[i..], key) == KeepFirst(acc', xs[i + 1..], key) by {
        assert xs[i..][0] == x && xs[i..][1..] == xs[i + 1..];
      }
      assert seen == HasKey(xs[..i], key(x), key);
      var here := if seen then [] else [x];
      assert FirstsFrom(xs, key, i) == here + rest;
      assert acc + (here + rest) == (acc + here) + rest;
      assert acc + here == acc';
      SameKeysSnoc(acc, xs, key, i);
      KeepFirstFirstsFrom(acc', xs, key, i + 1);
    }
  }

  /** `a` and `b` hold the same keys. */
  ghost predicate SameKeys<T, K(!new)>(a: seq<T>, b: seq<T>, key: T -> K) {
    forall k :: HasKey(a, k, key) <==> HasKey(b, k, key)
  }

  /** Moving past xs[i] keeps the kept keys equal to the keys seen so far. */
  lemma SameKeysSnoc<T, K(!new)>(acc: seq<T>, xs: seq<T>, key: T -> K, i: nat)
    requires i < |xs|
    requires SameKeys(acc, xs[..i], key)
    ensures SameKeys(if HasKey(acc, key(xs[i]), key) then acc else acc + [xs[i]], xs[..i + 1], key)
  {
    var x := xs[i];
    var acc' := if HasKey(acc, key(x), key) then acc else acc + [x];
    assert xs[..i + 1] == xs[..i] + [x];
    forall k
      ensures HasKey(acc', k, key) <==> HasKey(xs[..i + 1], k, key)
    {
      HasKeySnoc(xs[..i], x, k, key);
      if !HasKey(acc, key(x), key) {
        HasKeySnoc(acc, x, k, key);
      }
    }
  }

  lemma HasKeySnoc<T, K>(xs: seq<T>, x: T, k: K, key: T -> K)
    ensures HasKey(xs + [x], k, key) <==> HasKey(xs, k, key) || key(x) == k
  {
    if HasKey(xs, k, key) {
      var j :| 0 <= j < |xs| && key(xs[j]) == k;
      assert (xs + [x])[j] == xs[j];
    }
    if key(x) == k {
      assert (xs + [x])[|xs|] == x;
    }
    if HasKey(xs + [x], k, key) {
      var j :| 0 <= j < |xs + [x]| && key((xs + [x])[j]) == k;
      if j < |xs| {
        assert (xs + [x])[j] == xs[j];
      }
    }
  }

  /** One step of the fold over a piece of at most one element. */
  lemma KeepFirstStep<T, K>(acc: seq<T>, c: seq<T>, rest: seq<T>, key: T -> K)
    requires |c| <= 1
    ensures KeepFirst(acc, c + rest, key) ==
      KeepFirst(if c != [] && !HasKey(acc, key(c[0]), key) then acc + c else acc, rest, key)
  {
    if c == [] {
      assert c + rest == rest;
    } else {
      assert (c + rest)[0] == c[0];
      assert (c + rest)[1..] == rest;
      assert c == [c[0]];
    }
  }

  /** The kept elements start with `acc`. */
  lemma {:induction false} KeepFirstExtends<T, K>(acc: seq<T>, xs: seq<T>, key: T -> K)
    ensures |acc| <= |KeepFirst(acc, xs, key)|
    ensures KeepFirst(acc, xs, key)[..|acc|] == acc
    decreases |xs|
  {
    if xs != [] {
      var acc' := if HasKey(acc, key(xs[0]), key) then acc else acc + [xs[0]];
      KeepFirstExtends(acc', xs[1..], key);
      assert KeepFirst(acc, xs, key)[..|acc'|][..|acc|] == acc;
    }
  }

  /** No two kept elements share a key. */
  lemma {:induction false} KeepFirstDistinct<T, K>(acc: seq<T>, xs: seq<T>, key: T -> K)
    requires DistinctKeys(acc, key)
    ensures DistinctKeys(KeepFirst(acc, xs, key), key)
    decreases |xs|
  {
    if xs != [] {
      if !HasKey(acc, key(xs[0]), key) {
        var acc' := acc + [xs[0]];
        forall i, j | 0 <= i < j < |acc'|
          ensures key(acc'[i]) != key(acc'[j])
        {
          if j == |acc| {
            assert acc'[i] == acc[i];
          }
        }
        KeepFirstDistinct(acc', xs[1..], key);
      } else {
        KeepFirstDistinct(acc, xs[1..], key);
      }
    }
  }

  /** A key is among the kept elements exactly when it was already in `acc`
      or occurs in `xs`: deduplication loses no key. */
  lemma {:induction false} KeepFirstKeys<T, K>(acc: seq<T>, xs: seq<T>, key: T -> K, k: K)
    ensures HasKey(KeepFirst(acc, xs, key), k, key) <==> HasKey(acc, k, key) || HasKey(xs, k, key)
    decreases |xs|
  {
    if xs != [] {
      var acc' := if HasKey(acc, key(xs[0]), key) then acc else acc + [xs[0]];
      KeepFirstKeys(acc', xs[1..], key, k);
      if HasKey(acc', k, key) {
        var j :| 0 <= j < |acc'| && key(acc'[j]) == k;
        if j == |acc| {
          assert key(xs[0]) == k;
        } else {
          assert key(acc[j]) == k;
        }
      }
      if HasKey(acc, k, key) {
        var j :| 0 <= j < |acc| && key(acc[j]) == k;
        assert acc'[j] == acc[j];
      }
      if HasKey(xs, k, key) {
        var j :| 0 <= j < |xs| && key(xs[j]) == k;
        if j == 0 {
          if !HasKey(acc, k, key) {
            assert acc'[|acc|] == xs[0];
          }
        } else {
          assert xs[1..][j - 1] == xs[j];
        }
      }
      if HasKey(xs[1..], k, key) {
        var j :| 0 <= j < |xs[1..]| && key(xs[1..][j]) == k;
        assert xs[j + 1] == xs[1..][j];
      }
    }
  }

  /** Every element of `xs` whose key is new when it is reached (not in
      `acc` and not earlier in `xs`) is kept, so the first occurrence of each
      key is the one that survives. */
  lemma {:induction false} KeepFirstKeepsFirst<T, K>(acc: seq<T>, xs: seq<T>, key: T -> K, i: nat)
    requires i < |xs|
    requires !HasKey(acc + xs[..i], key(xs[i]), key)
    ensures xs[i] in KeepFirst(acc, xs, key)
    decreases |xs|
  {
    var acc' := if HasKey(acc, key(xs[0]), key) then acc else acc + [xs[0]];
    if i == 0 {
      assert acc + xs[..0] == acc;
      KeepFirstExtends(acc', xs[1..], key);
      assert acc'[|acc|] == xs[0];
      assert KeepFirst(acc, xs, key)[..|acc'|][|acc|] == xs[0];
    } else {
      var whole := acc + xs[..i];
      var a := acc' + xs[1..][..i - 1];
      forall j | 0 <= j < |a|
        ensures key(a[j]) != key(xs[i])
      {
        if j < |acc| {
          assert a[j] == whole[j];
        } else if j < |acc'| {
          assert a[j] == whole[|acc|];
        } else {
          assert a[j] == whole[|acc| + 1 + (j - |acc'|)];
        }
      }
      assert xs[1..][i - 1] == xs[i];
      KeepFirstKeepsFirst(acc', xs[1..], key, i - 1);
    }
  }

  /** The elements kept after `acc` are a subsequence of `xs`: source
      order is preserved. */
  lemma {:induction false} KeepFirstOrder<T, K>(acc: seq<T>, xs: seq<T>, key: T -> K)
    ensures |acc| <= |KeepFirst(acc, xs, key)|
    ensures IsSubsequence(KeepFirst(acc, xs, key)[|acc|..], xs)
    decreases |xs|
  {
    KeepFirstExtends(acc, xs, key);
    if xs == [] {
    } else {
      var r := KeepFirst(acc, xs, key);
      if HasKey(acc, key(xs[0]), key) {
        KeepFirstOrder(acc, xs[1..], key);
        SubsequenceOfTail(r[|acc|..], xs);
      } else {
        var acc' := acc + [xs[0]];
        KeepFirstOrder(acc', xs[1..], key);
        KeepFirstExtends(acc', xs[1..], key);
        assert r[|acc|..][0] == r[..|acc'|][|acc|] == xs[0];
        assert r[|acc|..][1..] == r[|acc'|..];
      }
    }
  }

  /** Everything keep-first deduplication promises, from an empty start. */
  lemma KeepFirstSummary<T, K>(xs: seq<T>, key: T -> K)
    ensures DistinctKeys(KeepFirst([], xs, key), key)
    ensures IsSubsequence(KeepFirst([], xs, key), xs)
    ensures forall i :: 0 <= i < |xs| && !HasKey(xs[..i], key(xs[i]), key) ==> xs[i] in KeepFirst([], xs, key)
    ensures forall k :: HasKey(KeepFirst([], xs, key), k, key) <==> HasKey(xs, k, key)
    ensures forall e :: e in KeepFirst([], xs, key) ==> e in xs
  {
    var r := KeepFirst([], xs, key);
    KeepFirstDistinct([], xs, key);
    KeepFirstOrder([], xs, key);
    assert r[0..] == r;
    forall i | 0 <= i < |xs| && !HasKey(xs[..i], key(xs[i]), key)
      ensures xs[i] in r
    {
      assert [] + xs[..i] == xs[..i];
      KeepFirstKeepsFirst([], xs, key, i);
    }
    forall k
      ensures HasKey(r, k, key) <==> HasKey(xs, k, key)
    {
      KeepFirstKeys([], xs, key, k);
    }
    KeepFirstFrom([], xs, key);
  }

  lemma SubsequenceOfTail<T>(a: seq<T>, b: seq<T>)
    requires b != [] && IsSubsequence(a, b[1..])
    ensures IsSubsequence(a, b)
  {
  }

  /** Every kept element came from `acc` or from `xs`. */
  lemma {:induction false} KeepFirstFrom<T, K>(acc: seq<T>, xs: seq<T>, key: T -> K)
    ensures forall e :: e in KeepFirst(acc, xs, key) ==> e in acc || e in xs
    decreases |xs|
  {
    if xs != [] {
      var acc' := if HasKey(acc, key(xs[0]), key) then acc else acc + [xs[0]];
      KeepFirstFrom(acc', xs[1..], key);
    }
  }
}
