/** Tap selection: each output bit's lookup table reads a list of input bit
    indices (an address), and a shuffle holds one address per output bit.
    Canonical addresses are strictly ascending; a canonical shuffle also has
    its addresses in lexicographic order. */
module Shuffles {

  type Address = seq<nat>
  type Shuffle = seq<Address>

  function Min(a: nat, b: nat): nat { if a < b then a else b }

  predicate StrictlyAscending(a: Address)
  {
    forall i, j | 0 <= i < j < |a| :: a[i] < a[j]
  }

  predicate NonDecreasing(a: Address)
  {
    forall i, j | 0 <= i < j < |a| :: a[i] <= a[j]
  }

  /** The taps an address reads, forgetting order and repeats. */
  function Elems(a: Address): set<nat>
  {
    set x | x in a
  }

  lemma AscendingTail(a: Address)
    requires StrictlyAscending(a) && a != []
    ensures StrictlyAscending(a[1..]) && Elems(a[1..]) == Elems(a) - {a[0]}
  {
    assert forall k | 0 <= k < |a[1..]| :: a[1..][k] == a[k + 1];
    assert a == [a[0]] + a[1..];
  }

  lemma ElemsEmpty(a: Address)
    ensures Elems(a) == {} <==> a == []
  {
    if a != [] {
      assert a[0] in Elems(a);
    }
  }

  /** Two canonical addresses with the same taps are equal. */
  lemma {:induction false} AscendingUnique(a: Address, b: Address)
    requires StrictlyAscending(a) && StrictlyAscending(b) && Elems(a) == Elems(b)
    ensures a == b
    decreases |a|
  {
    ElemsEmpty(a);
    ElemsEmpty(b);
    if a != [] {
      assert a[0] in Elems(b);
      var i :| 0 <= i < |b| && b[i] == a[0];
      assert b[0] in Elems(a);
      var j :| 0 <= j < |a| && a[j] == b[0];
      assert a[0] <= a[j] == b[0] <= b[i] == a[0];
      AscendingTail(a);
      AscendingTail(b);
      assert a[0] == b[0];
      AscendingUnique(a[1..], b[1..]);
      assert a == [a[0]] + a[1..] && b == [b[0]] + b[1..];
      assert a == [b[0]] + b[1..];
    }
  }

  lemma ElemsSnoc(r: Address, x: nat)
    ensures Elems(r + [x]) == Elems(r) + {x}
  {
    assert forall y | y in r + [x] :: y in r || y == x;
  }

  lemma AscendingSnoc(r: Address, x: nat)
    requires StrictlyAscending(r) && (r == [] || r[|r| - 1] < x)
    ensures StrictlyAscending(r + [x])
  {
    assert forall k | 0 <= k < |r| :: r[k] <= r[|r| - 1];
  }

  /** A canonical address reads each tap once. */
  lemma {:induction false} AscendingCard(a: Address)
    requires StrictlyAscending(a)
    ensures |Elems(a)| == |a|
  {
    if a != [] {
      AscendingTail(a);
      AscendingCard(a[1..]);
    }
  }

  // ---------------------------------------------------------------------
  // canonicaliseShuffleAddress

  /** Insert a tap into a canonical address, which keeps it when present. */
  function InsertStrict(r: Address, x: nat): Address
  {
    if r == [] then [x]
    else if x < r[0] then [x] + r
    else if x == r[0] then r
    else [r[0]] + InsertStrict(r[1..], x)
  }

  lemma {:induction false} InsertStrictCanonical(r: Address, x: nat)
    requires StrictlyAscending(r)
    ensures var q := InsertStrict(r, x);
      StrictlyAscending(q) && Elems(q) == Elems(r) + {x} &&
      q != [] && (q[0] == x || (r != [] && q[0] == r[0]))
  {
    if r == [] {
      assert Elems([x]) == {x};
    } else if x < r[0] {
      ConsAscending(x, r);
    } else if x == r[0] {
      assert x in Elems(r);
    } else {
      InsertStrictCanonical(r[1..], x);
      InsertAboveHead(r, x, InsertStrict(r[1..], x));
    }
  }

  /** Inserting above the head: the head stays in front of the tail's
      insertion. */
  lemma InsertAboveHead(r: Address, x: nat, q: Address)
    requires StrictlyAscending(r) && r != [] && r[0] < x
    requires StrictlyAscending(q) && Elems(q) == Elems(r[1..]) + {x}
    requires q != [] && (q[0] == x || (r[1..] != [] && q[0] == r[1..][0]))
    ensures StrictlyAscending([r[0]] + q) && Elems([r[0]] + q) == Elems(r) + {x}
  {
    AscendingTail(r);
    assert r[1..] != [] ==> r[0] < r[1..][0] by { if r[1..] != [] { assert r[1] == r[1..][0]; } }
    ConsAscending(r[0], q);
  }

  lemma ConsAscending(x: nat, q: Address)
    requires StrictlyAscending(q) && (q == [] || x < q[0])
    ensures StrictlyAscending([x] + q) && Elems([x] + q) == {x} + Elems(q)
  {
    assert forall k | 0 <= k < |q| :: q[0] <= q[k];
  }

  /** The canonical form of an address: its taps, ascending, without repeats. */
  function Canon(a: Address): (r: Address)
    ensures StrictlyAscending(r) && Elems(r) == Elems(a)
  {
    if a == [] then []
    else
      var n := |a| - 1;
      assert a == a[..n] + [a[n]];
      InsertStrictCanonical(Canon(a[..n]), a[n]);
      InsertStrict(Canon(a[..n]), a[n])
  }

  /** Canonicalising a canonical address changes nothing. */
  lemma CanonOfCanonical(a: Address)
    requires StrictlyAscending(a)
    ensures Canon(a) == a
  {
    AscendingUnique(Canon(a), a);
  }

  function InsertSorted(r: Address, x: nat): (q: Address)
    requires NonDecreasing(r)
    ensures NonDecreasing(q) && multiset(q) == multiset(r) + multiset{x}
    ensures q[0] == x || (r != [] && q[0] == r[0])
  {
    if r == [] || x <= r[0] then
      ConsNonDecreasing(x, r);
      [x] + r
    else
      var t := r[1..];
      assert forall k | 0 <= k < |t| :: t[k] == r[k + 1];
      var q := InsertSorted(t, x);
      assert r == [r[0]] + t;
      assert t != [] ==> r[0] <= t[0];
      ConsNonDecreasing(r[0], q);
      [r[0]] + q
  }

  /** A head no greater than the first element keeps a sequence in order. */
  lemma ConsNonDecreasing(x: nat, q: Address)
    requires NonDecreasing(q) && (q == [] || x <= q[0])
    ensures NonDecreasing([x] + q)
  {
    var c := [x] + q;
    forall i, j | 0 <= i < j < |c|
      ensures c[i] <= c[j]
    {
      assert c[j] == q[j - 1];
      if i > 0 {
        assert c[i] == q[i - 1];
      }
    }
  }

  /** `std::sort` of an address. */
  method SortAddress(a: Address) returns (r: Address)
    ensures NonDecreasing(r) && multiset(r) == multiset(a)
  {
    r := [];
    for i := 0 to |a|
      invariant NonDecreasing(r) && multiset(r) == multiset(a[..i])
    {
      r := InsertSorted(r, a[i]);
      assert a[..i + 1] == a[..i] + [a[i]];
    }
    assert a[..|a|] == a;
  }

  /** `std::unique` and `erase`: keeps an element only when it differs from
      the last one kept. */
  method Unique(a: Address) returns (r: Address)
    requires NonDecreasing(a)
    ensures StrictlyAscending(r) && Elems(r) == Elems(a)
  {
    r := [];
    for i := 0 to |a|
      invariant StrictlyAscending(r) && Elems(r) == Elems(a[..i])
      invariant i == 0 ==> r == []
      invariant i > 0 ==> r != [] && r[|r| - 1] == a[i - 1]
    {
      assert a[..i + 1] == a[..i] + [a[i]];
      ElemsSnoc(a[..i], a[i]);
      assert i > 0 ==> a[i - 1] <= a[i];
      if r == [] || r[|r| - 1] != a[i] {
        AscendingSnoc(r, a[i]);
        ElemsSnoc(r, a[i]);
        r := r + [a[i]];
      } else {
        assert a[i] in Elems(r);
      }
    }
    assert a[..|a|] == a;
  }

  lemma MultisetElems(a: Address, b: Address)
    requires multiset(a) == multiset(b)
    ensures Elems(a) == Elems(b)
  {
    assert forall x :: x in a <==> x in multiset(a);
    assert forall x :: x in b <==> x in multiset(b);
  }

  /** `canonicaliseShuffleAddress`: sort, then drop repeats. */
  method CanonicaliseAddress(a: Address) returns (r: Address)
    ensures r == Canon(a)
  {
    var sorted := SortAddress(a);
    r := Unique(sorted);
    MultisetElems(sorted, a);
    AscendingUnique(r, Canon(a));
  }

  // ---------------------------------------------------------------------
  // canonicaliseShuffle

  /** `std::lexicographical_compare`: the first differing tap decides, and a
      proper prefix comes first. */
  function LexLess(a: seq<int>, b: seq<int>): bool
  {
    if a == [] then b != []
    else if b == [] then false
    else if a[0] != b[0] then a[0] < b[0]
    else LexLess(a[1..], b[1..])
  }

  lemma {:induction false} LexIrreflexive(a: seq<int>)
    ensures !LexLess(a, a)
  {
    if a != [] {
      LexIrreflexive(a[1..]);
    }
  }

  lemma {:induction false} LexTotal(a: seq<int>, b: seq<int>)
    ensures a == b || LexLess(a, b) || LexLess(b, a)
  {
    if a != [] && b != [] && a[0] == b[0] {
      LexTotal(a[1..], b[1..]);
      if a[1..] == b[1..] {
        assert a == [a[0]] + a[1..] && b == [b[0]] + b[1..];
      }
    }
  }

  lemma {:induction false} LexTransitive(a: seq<int>, b: seq<int>, c: seq<int>)
    requires LexLess(a, b) && LexLess(b, c)
    ensures LexLess(a, c)
  {
    if a != [] && a[0] == b[0] && b[0] == c[0] {
      LexTransitive(a[1..], b[1..], c[1..]);
    }
  }

  /** "Not after" is transitive: the order `std::sort` relies on. */
  lemma NotAfterTransitive(a: seq<int>, b: seq<int>, c: seq<int>)
    requires !LexLess(b, a) && !LexLess(c, b)
    ensures !LexLess(c, a)
  {
    LexTotal(a, b);
    LexTotal(b, c);
    if LexLess(c, a) && a != b && b != c {
      LexTransitive(a, b, c);
      LexTransitive(a, c, a);
      LexIrreflexive(a);
    }
  }

  lemma LexAsymmetric(a: seq<int>, b: seq<int>)
    requires LexLess(a, b)
    ensures !LexLess(b, a)
  {
    if LexLess(b, a) {
      LexTransitive(a, b, a);
      LexIrreflexive(a);
    }
  }

  predicate LexSorted(s: Shuffle)
  {
    forall i, j | 0 <= i < j < |s| :: !LexLess(s[j], s[i])
  }

  function InsertLex(r: Shuffle, x: Address): (q: Shuffle)
    requires LexSorted(r)
    ensures LexSorted(q) && multiset(q) == multiset(r) + multiset{x}
  {
    if r == [] then [x]
    else if !LexLess(r[0], x) then
      assert forall k | 0 <= k < |r| :: !LexLess(r[k], x) by {
        forall k | 0 <= k < |r|
          ensures !LexLess(r[k], x)
        {
          if k > 0 {
            NotAfterTransitive(x, r[0], r[k]);
          }
        }
      }
      [x] + r
    else
      var q := InsertLex(r[1..], x);
      assert forall k | 0 <= k < |q| :: !LexLess(q[k], r[0]) by {
        forall k | 0 <= k < |q|
          ensures !LexLess(q[k], r[0])
        {
          assert q[k] in multiset(r[1..]) + multiset{x};
          if q[k] == x {
            LexAsymmetric(r[0], x);
          } else {
            assert q[k] in r[1..];
          }
        }
      }
      assert r == [r[0]] + r[1..];
      [r[0]] + q
  }

  /** `std::sort` of the addresses with `lex_compare_shuffle`. */
  method SortShuffle(s: Shuffle) returns (r: Shuffle)
    ensures LexSorted(r) && multiset(r) == multiset(s)
  {
    r := [];
    for i := 0 to |s|
      invariant LexSorted(r) && multiset(r) == multiset(s[..i])
    {
      r := InsertLex(r, s[i]);
      assert s[..i + 1] == s[..i] + [s[i]];
    }
    assert s[..|s|] == s;
  }

  /** Every address of the shuffle in canonical form, in place. */
  function Canons(s: Shuffle): (r: Shuffle)
    ensures |r| == |s| && forall i | 0 <= i < |s| :: r[i] == Canon(s[i])
  {
    seq(|s|, i requires 0 <= i < |s| => Canon(s[i]))
  }

  /** `canonicaliseShuffle`: every address canonical, then the addresses
      sorted; the result is a rearrangement of the canonical addresses. */
  method CanonicaliseShuffle(s: Shuffle) returns (r: Shuffle)
    ensures LexSorted(r) && multiset(r) == multiset(Canons(s))
    ensures |r| == |s| && forall i | 0 <= i < |r| :: StrictlyAscending(r[i])
  {
    var c := s;
    for i := 0 to |s|
      invariant |c| == |s|
      invariant forall k | 0 <= k < i :: c[k] == Canon(s[k])
      invariant forall k | i <= k < |s| :: c[k] == s[k]
    {
      var a := CanonicaliseAddress(c[i]);
      c := c[i := a];
    }
    assert c == Canons(s);
    r := SortShuffle(c);
    assert |r| == |multiset(r)| == |c|;
    forall i | 0 <= i < |r|
      ensures StrictlyAscending(r[i])
    {
      assert r[i] in multiset(c);
      var k :| 0 <= k < |c| && c[k] == r[i];
    }
  }

  // ---------------------------------------------------------------------
  // metricShuffleAddress

  /** How many taps of `a` the address `b` does not read. */
  function CountNotIn(a: Address, b: Address): nat
  {
    if a == [] then 0 else CountNotIn(a[..|a| - 1], b) + (if a[|a| - 1] in b then 0 else 1)
  }

  /** The size of the symmetric difference of the two tap sets. */
  function SymDiff(a: Address, b: Address): nat
  {
    |Elems(a) - Elems(b)| + |Elems(b) - Elems(a)|
  }

  lemma CountNotInSnoc(a: Address, i: nat, b: Address)
    requires i < |a|
    ensures CountNotIn(a[..i + 1], b) == CountNotIn(a[..i], b) + (if a[i] in b then 0 else 1)
  {
    assert a[..i + 1][..i] == a[..i];
  }

  lemma {:induction false} CountNotInSets(a: Address, b: Address)
    requires StrictlyAscending(a)
    ensures CountNotIn(a, b) == |Elems(a) - Elems(b)|
  {
    if a != [] {
      var n := |a| - 1;
      var init := a[..n];
      assert a == init + [a[n]];
      assert StrictlyAscending(init);
      assert a[n] !in Elems(init) by {
        assert forall k | 0 <= k < n :: init[k] < a[n];
      }
      CountNotInSets(init, b);
      ElemsSnoc(init, a[n]);
      CardStep(Elems(init), a[n], Elems(b));
    }
  }

  lemma CardStep(A: set<nat>, x: nat, B: set<nat>)
    requires x !in A
    ensures |(A + {x}) - B| == |A - B| + (if x in B then 0 else 1)
  {
    if x in B {
      assert (A + {x}) - B == A - B;
    } else {
      assert (A + {x}) - B == (A - B) + {x};
    }
  }

  /** The taps of `a` from position `i` on are all missing from `b`. */
  lemma {:induction false} CountNotInRest(a: Address, i: nat, j: nat, b: Address)
    requires i <= j <= |a| && forall k | i <= k < |a| :: a[k] !in b
    ensures CountNotIn(a[..j], b) == CountNotIn(a[..i], b) + (j - i)
    decreases j
  {
    if j > i {
      CountNotInRest(a, i, j - 1, b);
      CountNotInSnoc(a, j - 1, b);
    }
  }

  /** The state of the merge of two ascending addresses. */
  predicate Merged(a0: Address, a1: Address, i0: nat, i1: nat, d: nat)
    requires i0 <= |a0| && i1 <= |a1|
  {
    && d == CountNotIn(a0[..i0], a1) + CountNotIn(a1[..i1], a0)
    && (forall k | 0 <= k < i0 :: i1 < |a1| ==> a0[k] < a1[i1])
    && (forall k | 0 <= k < i1 :: i0 < |a0| ==> a1[k] < a0[i0])
  }

  lemma MergeSkipFirst(a0: Address, a1: Address, i0: nat, i1: nat, d: nat)
    requires StrictlyAscending(a0) && StrictlyAscending(a1)
    requires i0 < |a0| && i1 < |a1| && a0[i0] < a1[i1] && Merged(a0, a1, i0, i1, d)
    ensures Merged(a0, a1, i0 + 1, i1, d + 1)
  {
    assert forall k | 0 <= k < |a1| :: a1[k] != a0[i0];
    CountNotInSnoc(a0, i0, a1);
  }

  lemma MergeSkipSecond(a0: Address, a1: Address, i0: nat, i1: nat, d: nat)
    requires StrictlyAscending(a0) && StrictlyAscending(a1)
    requires i0 < |a0| && i1 < |a1| && a0[i0] > a1[i1] && Merged(a0, a1, i0, i1, d)
    ensures Merged(a0, a1, i0, i1 + 1, d + 1)
  {
    assert forall k | 0 <= k < |a0| :: a0[k] != a1[i1];
    CountNotInSnoc(a1, i1, a0);
  }

  lemma MergeBoth(a0: Address, a1: Address, i0: nat, i1: nat, d: nat)
    requires StrictlyAscending(a0) && StrictlyAscending(a1)
    requires i0 < |a0| && i1 < |a1| && a0[i0] == a1[i1] && Merged(a0, a1, i0, i1, d)
    ensures Merged(a0, a1, i0 + 1, i1 + 1, d)
  {
    CountNotInSnoc(a0, i0, a1);
    CountNotInSnoc(a1, i1, a0);
  }

  lemma MergeEnd(a0: Address, a1: Address, i0: nat, i1: nat, d: nat)
    requires StrictlyAscending(a0) && StrictlyAscending(a1)
    requires i0 <= |a0| && i1 <= |a1| && (i0 == |a0| || i1 == |a1|) && Merged(a0, a1, i0, i1, d)
    ensures d + (|a0| - i0) + (|a1| - i1) == SymDiff(a0, a1)
  {
    CountNotInRest(a0, i0, |a0|, a1);
    CountNotInRest(a1, i1, |a1|, a0);
    assert a0[..|a0|] == a0 && a1[..|a1|] == a1;
    CountNotInSets(a0, a1);
    CountNotInSets(a1, a0);
  }

  /** The merge loop of `metricShuffleAddress`, with `i1` starting at
      position `start1` of `a1`. From the front, it counts the taps read by
      exactly one of two canonical addresses; from the end, the loop never
      runs and the result is the length of `a0`. */
  method MetricMerge(a0: Address, a1: Address, start1: nat) returns (different: nat)
    requires start1 <= |a1|
    ensures start1 == 0 && StrictlyAscending(a0) && StrictlyAscending(a1) ==> different == SymDiff(a0, a1)
    ensures start1 == |a1| ==> different == |a0|
  {
    ghost var sorted := start1 == 0 && StrictlyAscending(a0) && StrictlyAscending(a1);
    different := 0;
    var i0, i1 := 0, start1;
    while i0 < |a0| && i1 < |a1|
      invariant i0 <= |a0| && start1 <= i1 <= |a1|
      invariant sorted ==> Merged(a0, a1, i0, i1, different)
      invariant start1 == |a1| ==> i0 == 0 && different == 0
      decreases |a0| - i0 + |a1| - i1
    {
      if a0[i0] < a1[i1] {
        if sorted {
          MergeSkipFirst(a0, a1, i0, i1, different);
        }
        different := different + 1;
        i0 := i0 + 1;
      } else if a0[i0] > a1[i1] {
        if sorted {
          MergeSkipSecond(a0, a1, i0, i1, different);
        }
        different := different + 1;
        i1 := i1 + 1;
      } else {
        if sorted {
          MergeBoth(a0, a1, i0, i1, different);
        }
        i0 := i0 + 1;
        i1 := i1 + 1;
      }
    }
    if sorted {
      MergeEnd(a0, a1, i0, i1, different);
    }
    different := different + (|a0| - i0) + (|a1| - i1);
  }

  /** `metricShuffleAddress` with both iterators starting at the front. */
  method MetricShuffleAddress(a0: Address, a1: Address) returns (different: nat)
    ensures StrictlyAscending(a0) && StrictlyAscending(a1) ==> different == SymDiff(a0, a1)
  {
    different := MetricMerge(a0, a1, 0);
  }

  /** `metricShuffleAddress` as written: `i1` starts at `a1.end()`. */
  method MetricShuffleAddressAsWritten(a0: Address, a1: Address) returns (different: nat)
    ensures different == |a0|
  {
    different := MetricMerge(a0, a1, |a1|);
  }

  /** Two equal one-tap addresses have no differing tap, yet the metric as
      written reports one. */
  lemma MetricAsWrittenMisses()
    ensures SymDiff([0], [0]) == 0 && |[0]| == 1
  {
    assert Elems([0]) - Elems([0]) == {};
  }

  lemma SymDiffZero(a: Address, b: Address)
    ensures SymDiff(a, b) == 0 <==> Elems(a) == Elems(b)
  {
    if SymDiff(a, b) == 0 {
      assert Elems(a) - Elems(b) == {} && Elems(b) - Elems(a) == {};
      assert Elems(a) <= Elems(b) && Elems(b) <= Elems(a);
    }
  }

  // ---------------------------------------------------------------------
  // evaluateShuffle

  /** The metric of address `i` against addresses `j` and later. */
  function RowSum(s: Shuffle, i: nat, j: nat): nat
    requires i < |s| && j <= |s|
    decreases |s| - j
  {
    if j == |s| then 0 else SymDiff(s[i], s[j]) + RowSum(s, i, j + 1)
  }

  /** The metric summed over the pairs whose first address is `i` or later. */
  function PairSum(s: Shuffle, i: nat): nat
    requires i <= |s|
    decreases |s| - i
  {
    if i == |s| then 0 else RowSum(s, i, i + 1) + PairSum(s, i + 1)
  }

  /** The score of a shuffle: the metric summed over all pairs `i < j`. */
  function Evaluation(s: Shuffle): nat
  {
    PairSum(s, 0)
  }

  lemma {:induction false} RowSumZero(s: Shuffle, i: nat, j: nat)
    requires i < |s| && j <= |s|
    ensures RowSum(s, i, j) == 0 <==> forall b | j <= b < |s| :: Elems(s[i]) == Elems(s[b])
    decreases |s| - j
  {
    if j < |s| {
      RowSumZero(s, i, j + 1);
      SymDiffZero(s[i], s[j]);
    }
  }

  lemma {:induction false} PairSumZero(s: Shuffle, i: nat)
    requires i <= |s|
    ensures PairSum(s, i) == 0 <==> forall a, b | i <= a < b < |s| :: Elems(s[a]) == Elems(s[b])
    decreases |s| - i
  {
    if i < |s| {
      PairSumZero(s, i + 1);
      RowSumZero(s, i, i + 1);
    }
  }

  /** A shuffle scores 0 exactly when all its addresses read the same taps. */
  lemma EvaluationZero(s: Shuffle)
    ensures Evaluation(s) == 0 <==> forall a, b | 0 <= a < b < |s| :: Elems(s[a]) == Elems(s[b])
  {
    PairSumZero(s, 0);
  }

  /** What the as-written metric gives for address `i` against addresses
      `j` and later: the length of address `i`, once per later address. */
  function RowSumAsWritten(s: Shuffle, i: nat, j: nat): nat
    requires i < |s| && j <= |s|
    decreases |s| - j
  {
    if j == |s| then 0 else |s[i]| + RowSumAsWritten(s, i, j + 1)
  }

  function PairSumAsWritten(s: Shuffle, i: nat): nat
    requires i <= |s|
    decreases |s| - i
  {
    if i == |s| then 0 else RowSumAsWritten(s, i, i + 1) + PairSumAsWritten(s, i + 1)
  }

  /** The score `evaluateShuffle` computes with the metric as written. */
  function EvaluationAsWritten(s: Shuffle): nat
  {
    PairSumAsWritten(s, 0)
  }

  lemma {:induction false} RowSumAsWrittenValue(s: Shuffle, i: nat, j: nat)
    requires i < |s| && j <= |s|
    ensures RowSumAsWritten(s, i, j) == |s[i]| * (|s| - j)
    decreases |s| - j
  {
    if j < |s| {
      RowSumAsWrittenValue(s, i, j + 1);
      assert |s[i]| * (|s| - j) == |s[i]| + |s[i]| * (|s| - (j + 1));
    }
  }

  lemma {:induction false} PairSumAsWrittenZero(s: Shuffle, i: nat)
    requires i <= |s|
    ensures PairSumAsWritten(s, i) == 0 <==> forall a | i <= a < |s| - 1 :: s[a] == []
    decreases |s| - i
  {
    if i < |s| {
      PairSumAsWrittenZero(s, i + 1);
      RowSumAsWrittenValue(s, i, i + 1);
      if i < |s| - 1 {
        assert |s[i]| * (|s| - (i + 1)) == 0 <==> |s[i]| == 0;
      }
    }
  }

  /** As written, a shuffle scores 0 exactly when every address but the
      last reads no tap, whatever the taps are. */
  lemma EvaluationAsWrittenZero(s: Shuffle)
    ensures EvaluationAsWritten(s) == 0 <==> forall a | 0 <= a < |s| - 1 :: s[a] == []
  {
    PairSumAsWrittenZero(s, 0);
  }

  /** The as-written score against the intended one: two equal one-tap
      addresses score 1 instead of 0, and an empty address before a
      one-tap address scores 0 instead of 1. */
  lemma EvaluationAsWrittenMisses()
    ensures EvaluationAsWritten([[0], [0]]) == 1 && Evaluation([[0], [0]]) == 0
    ensures EvaluationAsWritten([[], [5]]) == 0 && Evaluation([[], [5]]) == 1
  {
    var s, t: Shuffle := [[0], [0]], [[], [5]];
    assert Elems(s[0]) - Elems(s[1]) == {};
    assert SymDiff(s[0], s[1]) == 0;
    assert Elems(t[1]) == {5} && Elems(t[0]) == {};
    assert Elems(t[1]) - Elems(t[0]) == {5};
    assert SymDiff(t[0], t[1]) == 1;
  }

  /** `evaluateShuffle` as written: the loop bound `size()-1` is unsigned,
      so the shuffle must not be empty, and each pair is scored by the
      metric as written. */
  method EvaluateShuffle(s: Shuffle) returns (acc: nat)
    requires |s| > 0
    ensures acc == EvaluationAsWritten(s)
  {
    acc := 0;
    for i := 0 to |s| - 1
      invariant acc + PairSumAsWritten(s, i) == EvaluationAsWritten(s)
    {
      for j := i + 1 to |s|
        invariant acc + RowSumAsWritten(s, i, j) + PairSumAsWritten(s, i + 1) == EvaluationAsWritten(s)
      {
        var m := MetricShuffleAddressAsWritten(s[i], s[j]);
        acc := acc + m;
      }
    }
  }

  /** `evaluateShuffle` over the corrected metric: on canonical addresses,
      the metric summed over all pairs i < j. */
  method EvaluateShuffleCorrected(s: Shuffle) returns (acc: nat)
    requires |s| > 0
    ensures (forall i | 0 <= i < |s| :: StrictlyAscending(s[i])) ==> acc == Evaluation(s)
  {
    ghost var canonical := forall i | 0 <= i < |s| :: StrictlyAscending(s[i]);
    acc := 0;
    for i := 0 to |s| - 1
      invariant canonical ==> acc + PairSum(s, i) == Evaluation(s)
    {
      for j := i + 1 to |s|
        invariant canonical ==> acc + RowSum(s, i, j) + PairSum(s, i + 1) == Evaluation(s)
      {
        var m := MetricShuffleAddress(s[i], s[j]);
        acc := acc + m;
      }
    }
  }

  // ---------------------------------------------------------------------
  // isValidShuffle

  predicate Occurs(s: Shuffle, x: nat)
  {
    exists i | 0 <= i < |s| :: x in s[i]
  }

  /** Every input bit below `wI` is read by some address. */
  predicate Covers(wI: nat, s: Shuffle)
  {
    forall x | 0 <= x < wI :: Occurs(s, x)
  }

  /** Every tap names an input bit below `wI`. */
  predicate Bounded(wI: nat, s: Shuffle)
  {
    forall i, j | 0 <= i < |s| && 0 <= j < |s[i]| :: s[i][j] < wI
  }

  function CountTrue(m: seq<bool>): nat
  {
    if m == [] then 0 else CountTrue(m[..|m| - 1]) + (if m[|m| - 1] then 1 else 0)
  }

  lemma {:induction false} CountTrueBounds(m: seq<bool>)
    ensures CountTrue(m) <= |m|
    ensures CountTrue(m) == |m| <==> forall x | 0 <= x < |m| :: m[x]
  {
    if m != [] {
      var n := |m| - 1;
      CountTrueBounds(m[..n]);
      assert forall x | 0 <= x < n :: m[..n][x] == m[x];
    }
  }

  lemma {:induction false} CountTrueNone(m: seq<bool>)
    requires forall x | 0 <= x < |m| :: !m[x]
    ensures CountTrue(m) == 0
  {
    if m != [] {
      CountTrueNone(m[..|m| - 1]);
    }
  }

  lemma {:induction false} CountTrueSet(m: seq<bool>, x: nat)
    requires x < |m| && !m[x]
    ensures CountTrue(m[x := true]) == CountTrue(m) + 1
  {
    var n := |m| - 1;
    var m' := m[x := true];
    assert m'[..n] == if x == n then m[..n] else m[..n][x := true];
    if x < n {
      CountTrueSet(m[..n], x);
    }
  }

  predicate OccursBefore(s: Shuffle, i: nat, x: nat)
    requires i <= |s|
  {
    exists k | 0 <= k < i :: x in s[k]
  }

  /** `isValidShuffle`: marks the taps seen and stops once `wI` distinct
      ones are marked. The count is checked only after a new mark, so no
      shuffle is valid for `wI == 0`. */
  method IsValidShuffle(wI: nat, s: Shuffle) returns (valid: bool)
    requires Bounded(wI, s)
    ensures valid <==> wI > 0 && Covers(wI, s)
  {
    var hit := 0;
    var mask := new bool[wI](_ => false);
    CountTrueNone(mask[..]);
    for i := 0 to |s|
      invariant forall x | 0 <= x < wI :: mask[x] <==> OccursBefore(s, i, x)
      invariant hit == CountTrue(mask[..]) && (wI > 0 ==> hit < wI)
    {
      for j := 0 to |s[i]|
        invariant forall x | 0 <= x < wI :: mask[x] <==> OccursBefore(s, i, x) || x in s[i][..j]
        invariant hit == CountTrue(mask[..]) && (wI > 0 ==> hit < wI)
      {
        var x := s[i][j];
        assert s[i][..j + 1] == s[i][..j] + [x];
        if !mask[x] {
          ghost var before := mask[..];
          CountTrueSet(before, x);
          mask[x] := true;
          assert mask[..] == before[x := true];
          hit := hit + 1;
          if hit == wI {
            CountTrueBounds(mask[..]);
            forall y | 0 <= y < wI
              ensures Occurs(s, y)
            {
              assert mask[y];
              if y in s[i][..j + 1] {
                assert y in s[i];
              }
            }
            return true;
          }
        }
      }
      assert s[i][..|s[i]|] == s[i];
    }
    if wI > 0 {
      CountTrueBounds(mask[..]);
      var y :| 0 <= y < wI && !mask[y];
      assert !Occurs(s, y);
    }
    return false;
  }

  // ---------------------------------------------------------------------
  // makeRandomShuffle

  /** A set of fewer than `n` inputs below `n` misses one of them. */
  lemma {:induction false} FreeBelow(S: set<nat>, n: nat)
    requires forall y | y in S :: y < n
    requires |S| < n
    ensures exists x: nat :: x < n && x !in S
  {
    if n - 1 in S {
      FreeBelow(S - {n - 1}, n - 1);
    }
  }

  /** A `std::set` copied into a vector: its elements in ascending order. */
  method Ascending(S: set<nat>, bound: nat) returns (r: Address)
    requires forall y | y in S :: y < bound
    ensures StrictlyAscending(r) && Elems(r) == S && |r| == |S|
  {
    r := [];
    for x := 0 to bound
      invariant StrictlyAscending(r)
      invariant forall k | 0 <= k < |r| :: r[k] < x
      invariant Elems(r) == set y | y in S && y < x
    {
      ElemsSnoc(r, x);
      if x in S {
        r := r + [x];
      }
    }
    assert Elems(r) == S;
    AscendingCard(r);
  }

  /** The taps read by an address are inputs below `wI`. */
  predicate Within(wI: nat, a: Address)
  {
    forall j | 0 <= j < |a| :: a[j] < wI
  }

  /** The first loop of `makeRandomShuffle`: input `i` goes to set `i % wO`. */
  method Spread(wO: nat, wI: nat) returns (res: seq<set<nat>>)
    requires wO > 0 || wI == 0
    ensures |res| == wO
    ensures forall x | 0 <= x < wI :: x in res[x % wO]
    ensures forall k, y | 0 <= k < wO && y in res[k] :: y < wI
  {
    res := seq(wO, _ => {});
    for i := 0 to wI
      invariant |res| == wO
      invariant forall x | 0 <= x < i :: x in res[x % wO]
      invariant forall k, y | 0 <= k < wO && y in res[k] :: y < i
    {
      res := res[i % wO := res[i % wO] + {i}];
    }
  }

  /** The second loop: each set grows to `min(wI, wA)` inputs. A draw is an
      arbitrary input not yet in the set, since a draw already present
      leaves the set as it is. */
  method FillUp(res0: seq<set<nat>>, wI: nat, wA: nat) returns (res: seq<set<nat>>)
    requires forall k, y | 0 <= k < |res0| && y in res0[k] :: y < wI
    ensures |res| == |res0|
    ensures forall k | 0 <= k < |res| :: res0[k] <= res[k] && |res[k]| >= Min(wI, wA)
    ensures forall k, y | 0 <= k < |res| && y in res[k] :: y < wI
  {
    res := res0;
    for i := 0 to |res|
      invariant |res| == |res0|
      invariant forall k | 0 <= k < |res| :: res0[k] <= res[k]
      invariant forall k, y | 0 <= k < |res| && y in res[k] :: y < wI
      invariant forall k | 0 <= k < i :: |res[k]| >= Min(wI, wA)
    {
      while |res[i]| < Min(wI, wA)
        invariant |res| == |res0|
        invariant forall k | 0 <= k < |res| :: res0[k] <= res[k]
        invariant forall k, y | 0 <= k < |res| && y in res[k] :: y < wI
        invariant forall k | 0 <= k < i :: |res[k]| >= Min(wI, wA)
        decreases Min(wI, wA) - |res[i]|
      {
        FreeBelow(res[i], wI);
        var x: nat :| x < wI && x !in res[i];
        res := res[i := res[i] + {x}];
      }
    }
  }

  /** The sets copied into vectors, each in ascending order. */
  method ToAddresses(res: seq<set<nat>>, wI: nat) returns (rres: Shuffle)
    requires forall k, y | 0 <= k < |res| && y in res[k] :: y < wI
    ensures |rres| == |res|
    ensures forall m | 0 <= m < |res| :: StrictlyAscending(rres[m]) && Elems(rres[m]) == res[m] && |rres[m]| == |res[m]|
  {
    rres := [];
    for k := 0 to |res|
      invariant |rres| == k
      invariant forall m | 0 <= m < k :: StrictlyAscending(rres[m]) && Elems(rres[m]) == res[m] && |rres[m]| == |res[m]|
    {
      var a := Ascending(res[k], wI);
      rres := rres + [a];
    }
  }

  /** `makeRandomShuffle`: every input is spread over the addresses, the
      addresses are filled up at random, and the shuffle is canonicalised. */
  method MakeRandomShuffle(wO: nat, wI: nat, wA: nat) returns (r: Shuffle)
    requires wO > 0 || wI == 0
    ensures |r| == wO && LexSorted(r)
    ensures forall i | 0 <= i < |r| :: StrictlyAscending(r[i]) && Within(wI, r[i]) && |r[i]| >= Min(wI, wA)
    ensures Covers(wI, r)
  {
    var spread := Spread(wO, wI);
    var res := FillUp(spread, wI, wA);
    var rres := ToAddresses(res, wI);
    forall m | 0 <= m < wO
      ensures Canon(rres[m]) == rres[m]
    {
      CanonOfCanonical(rres[m]);
    }
    assert Canons(rres) == rres;
    r := CanonicaliseShuffle(rres);
    forall i | 0 <= i < |r|
      ensures Within(wI, r[i]) && |r[i]| >= Min(wI, wA)
    {
      assert r[i] in multiset(rres);
      var m :| 0 <= m < wO && rres[m] == r[i];
      assert forall j | 0 <= j < |r[i]| :: r[i][j] in Elems(rres[m]);
    }
    forall x | 0 <= x < wI
      ensures Occurs(r, x)
    {
      var m := x % wO;
      assert x in spread[m];
      assert x in Elems(rres[m]);
      assert rres[m] in multiset(r);
      var i :| 0 <= i < |r| && r[i] == rres[m];
    }
  }
}
