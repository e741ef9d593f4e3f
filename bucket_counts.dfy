/** Counting keys per hash bucket and buckets per occupancy: the two
    tallies `EntryToKey` keeps in its `hashes` and `counts` vectors, and the
    collision score computed from them. */
module BucketCounts {

  /** How many positions of `s` hold `v`. */
  function Occ(s: seq<nat>, v: nat): (n: nat)
    ensures n <= |s|
  {
    if s == [] then 0 else Occ(s[..|s| - 1], v) + (if s[|s| - 1] == v then 1 else 0)
  }

  lemma OccSnoc(s: seq<nat>, x: nat, v: nat)
    ensures Occ(s + [x], v) == Occ(s, v) + (if x == v then 1 else 0)
  {
    assert (s + [x])[..|s|] == s;
  }

  lemma {:induction false} OccAppend(a: seq<nat>, b: seq<nat>, v: nat)
    ensures Occ(a + b, v) == Occ(a, v) + Occ(b, v)
    decreases |b|
  {
    if b == [] {
      assert a + b == a;
    } else {
      var b' := b[..|b| - 1];
      assert a + b == (a + b') + [b[|b| - 1]];
      assert b == b' + [b[|b| - 1]];
      OccSnoc(a + b', b[|b| - 1], v);
      OccSnoc(b', b[|b| - 1], v);
      OccAppend(a, b', v);
    }
  }

  /** Overwriting one position moves one unit from the old value's tally to
      the new value's. */
  lemma OccUpdate(s: seq<nat>, i: nat, x: nat, v: nat)
    requires i < |s|
    ensures Occ(s[i := x], v) == Occ(s, v) - (if s[i] == v then 1 else 0) + (if x == v then 1 else 0)
  {
    assert s == s[..i] + [s[i]] + s[i + 1..];
    assert s[i := x] == s[..i] + [x] + s[i + 1..];
    OccAppend(s[..i] + [s[i]], s[i + 1..], v);
    OccAppend(s[..i] + [x], s[i + 1..], v);
    OccSnoc(s[..i], s[i], v);
    OccSnoc(s[..i], x, v);
  }

  lemma {:induction false} OccPositive(s: seq<nat>, i: nat)
    requires i < |s|
    ensures Occ(s, s[i]) >= 1
  {
    assert s == (s[..i] + [s[i]]) + s[i + 1..];
    OccAppend(s[..i] + [s[i]], s[i + 1..], s[i]);
    OccSnoc(s[..i], s[i], s[i]);
  }

  lemma {:induction false} OccAbsent(s: seq<nat>, v: nat)
    requires forall i | 0 <= i < |s| :: s[i] != v
    ensures Occ(s, v) == 0
  {
    if s != [] {
      OccAbsent(s[..|s| - 1], v);
    }
  }

  /** Bucket `h` holds the number of entries of `xs` equal to `h`. */
  function Buckets(xs: seq<nat>, n: nat): (b: seq<nat>)
    ensures |b| == n
  {
    seq(n, h requires 0 <= h < n => Occ(xs, h))
  }

  /** Changing one hash from `a` to `b` takes one key out of bucket `a` and
      puts it into bucket `b`. */
  lemma BucketsUpdate(xs: seq<nat>, k: nat, b: nat, n: nat)
    requires k < |xs| && xs[k] < n && b < n && xs[k] != b
    ensures Buckets(xs, n)[xs[k]] >= 1
    ensures Buckets(xs[k := b], n) ==
      Buckets(xs, n)[xs[k] := Buckets(xs, n)[xs[k]] - 1][b := Buckets(xs, n)[b] + 1]
  {
    OccPositive(xs, k);
    var l := Buckets(xs[k := b], n);
    var r := Buckets(xs, n)[xs[k] := Buckets(xs, n)[xs[k]] - 1][b := Buckets(xs, n)[b] + 1];
    forall h | 0 <= h < n
      ensures l[h] == r[h]
    {
      OccUpdate(xs, k, b, h);
    }
  }

  // ---------------------------------------------------------------------
  // The histogram of bucket sizes

  /** `counts` as `EntryToKey` keeps it: entry c is the number of buckets
      holding exactly c keys, every bucket size has an entry, and the last
      entry is non-zero (the vector is trimmed). */
  predicate IsHistogram(counts: seq<nat>, hashes: seq<nat>)
  {
    && (forall c | 0 <= c < |counts| :: counts[c] == Occ(hashes, c))
    && (forall h | 0 <= h < |hashes| :: hashes[h] < |counts|)
    && (|counts| > 0 ==> counts[|counts| - 1] > 0)
  }

  /** The trimmed histogram is a function of the buckets. */
  lemma HistogramUnique(c1: seq<nat>, c2: seq<nat>, hashes: seq<nat>)
    requires IsHistogram(c1, hashes) && IsHistogram(c2, hashes)
    ensures c1 == c2
  {
    if |c1| > 0 {
      HistogramTop(c1, hashes);
    }
    if |c2| > 0 {
      HistogramTop(c2, hashes);
    }
    assert |c1| == |c2|;
  }

  /** The top entry of a trimmed histogram is the size of some bucket. */
  lemma HistogramTop(counts: seq<nat>, hashes: seq<nat>)
    requires IsHistogram(counts, hashes) && |counts| > 0
    ensures exists h | 0 <= h < |hashes| :: hashes[h] == |counts| - 1
  {
    var top := |counts| - 1;
    if forall h | 0 <= h < |hashes| :: hashes[h] != top {
      OccAbsent(hashes, top);
    }
  }

  /** The histogram of an empty bucket vector of size `n` > 0. */
  lemma HistogramOfZeros(n: nat)
    requires n > 0
    ensures IsHistogram([n], seq(n, _ => 0))
  {
    var z: seq<nat> := seq(n, _ => 0);
    assert Occ(z, 0) == n by {
      OccCountsAll(z, 0);
    }
  }

  lemma {:induction false} OccCountsAll(s: seq<nat>, v: nat)
    requires forall i | 0 <= i < |s| :: s[i] == v
    ensures Occ(s, v) == |s|
  {
    if s != [] {
      OccCountsAll(s[..|s| - 1], v);
    }
  }

  /** `hashes[h]--` together with the three updates of `counts` that
      `flipBit` makes when a key leaves bucket `h`. */
  method Leave(hashes: seq<nat>, counts: seq<nat>, h: nat) returns (hashes': seq<nat>, counts': seq<nat>)
    requires IsHistogram(counts, hashes) && h < |hashes| && hashes[h] > 0
    ensures hashes' == hashes[h := hashes[h] - 1]
    ensures IsHistogram(counts', hashes')
  {
    var collisions := hashes[h];
    hashes' := hashes[h := collisions - 1];
    OccPositive(hashes, h);
    counts' := counts[collisions := counts[collisions] - 1];
    if counts'[collisions] == 0 && collisions + 1 == |counts'| {
      counts' := counts'[..collisions];
    }
    counts' := counts'[collisions - 1 := counts'[collisions - 1] + 1];
    forall c | 0 <= c < |counts'|
      ensures counts'[c] == Occ(hashes', c)
    {
      OccUpdate(hashes, h, collisions - 1, c);
    }
    forall g | 0 <= g < |hashes'|
      ensures hashes'[g] < |counts'|
    {
      if hashes'[g] == collisions && |counts'| == collisions {
        OccPositive(hashes', g);
        OccUpdate(hashes, h, collisions - 1, collisions);
      }
    }
  }

  /** `++hashes[h]` together with the three updates of `counts` that
      `flipBit` makes when a key enters bucket `h`. */
  method Enter(hashes: seq<nat>, counts: seq<nat>, h: nat) returns (hashes': seq<nat>, counts': seq<nat>)
    requires IsHistogram(counts, hashes) && h < |hashes|
    ensures hashes' == hashes[h := hashes[h] + 1]
    ensures IsHistogram(counts', hashes')
  {
    var collisions := hashes[h] + 1;
    hashes' := hashes[h := collisions];
    OccPositive(hashes, h);
    counts' := counts[collisions - 1 := counts[collisions - 1] - 1];
    if collisions == |counts'| {
      counts' := counts' + [0];
    }
    counts' := counts'[collisions := counts'[collisions] + 1];
    forall c | 0 <= c < |counts'|
      ensures counts'[c] == Occ(hashes', c)
    {
      OccUpdate(hashes, h, collisions, c);
      if c >= |counts| {
        OccAbsent(hashes, c);
      }
    }
  }

  /** Counting one more bucket of size `c`, after growing the histogram to
      hold it, keeps it the histogram of the buckets seen. */
  lemma TallyStep(counts: seq<nat>, grown: seq<nat>, prefix: seq<nat>, c: nat)
    requires IsHistogram(counts, prefix)
    requires grown == if c >= |counts| then counts + seq(c + 1 - |counts|, _ => 0) else counts
    ensures c < |grown| && IsHistogram(grown[c := grown[c] + 1], prefix + [c])
  {
    forall d | |counts| <= d < |grown|
      ensures grown[d] == Occ(prefix, d)
    {
      OccAbsent(prefix, d);
    }
    var bumped := grown[c := grown[c] + 1];
    forall d | 0 <= d < |bumped|
      ensures bumped[d] == Occ(prefix + [c], d)
    {
      OccSnoc(prefix, c, d);
    }
    forall h | 0 <= h < |prefix + [c]|
      ensures (prefix + [c])[h] < |bumped|
    {
      if h < |prefix| {
        assert (prefix + [c])[h] == prefix[h];
      }
    }
  }

  /** The constructor's histogram pass: `counts[c]++` for each bucket size
      c, growing the vector whenever c does not fit. */
  method Tally(hashes: seq<nat>) returns (counts: seq<nat>)
    ensures IsHistogram(counts, hashes)
  {
    counts := [];
    var ci := 0;
    while ci < |hashes|
      invariant ci <= |hashes|
      invariant IsHistogram(counts, hashes[..ci])
    {
      var c := hashes[ci];
      ghost var before := counts;
      if c >= |counts| {
        counts := counts + seq(c + 1 - |counts|, _ => 0);
      }
      TallyStep(before, counts, hashes[..ci], c);
      counts := counts[c := counts[c] + 1];
      assert hashes[..ci + 1] == hashes[..ci] + [c];
      ci := ci + 1;
    }
    assert hashes[..ci] == hashes;
  }

  // ---------------------------------------------------------------------
  // The collision score

  /** Keys in a bucket beyond the first. */
  function Excess(c: nat): nat { if c > 0 then c - 1 else 0 }

  /** Sum of the excess of every entry. */
  function ExcessSum(s: seq<nat>): nat
  {
    if s == [] then 0 else ExcessSum(s[..|s| - 1]) + Excess(s[|s| - 1])
  }

  /** `eval`'s accumulation over the first `n` entries of the histogram:
      `counts[i] * (i - 1)` for each i >= 1. */
  function HistogramSum(counts: seq<nat>, n: nat): nat
    requires n <= |counts|
  {
    if n == 0 then 0 else HistogramSum(counts, n - 1) + counts[n - 1] * Excess(n - 1)
  }

  /** Sum over sizes c < n of (number of buckets of size c) * excess(c). */
  function Weighted(hashes: seq<nat>, n: nat): nat
  {
    if n == 0 then 0 else Weighted(hashes, n - 1) + Occ(hashes, n - 1) * Excess(n - 1)
  }

  lemma {:induction false} HistogramSumWeighted(counts: seq<nat>, hashes: seq<nat>, n: nat)
    requires n <= |counts|
    requires forall c | 0 <= c < |counts| :: counts[c] == Occ(hashes, c)
    ensures HistogramSum(counts, n) == Weighted(hashes, n)
  {
    if n > 0 {
      HistogramSumWeighted(counts, hashes, n - 1);
    }
  }

  lemma {:induction false} WeightedSnoc(hashes: seq<nat>, x: nat, n: nat)
    ensures Weighted(hashes + [x], n) == Weighted(hashes, n) + (if x < n then Excess(x) else 0)
  {
    if n > 0 {
      WeightedSnoc(hashes, x, n - 1);
      OccSnoc(hashes, x, n - 1);
      var d := if x == n - 1 then 1 else 0;
      var e := Excess(n - 1);
      assert (Occ(hashes, n - 1) + d) * e == Occ(hashes, n - 1) * e + d * e;
    }
  }

  lemma {:induction false} WeightedExcess(hashes: seq<nat>, n: nat)
    requires forall h | 0 <= h < |hashes| :: hashes[h] < n
    ensures Weighted(hashes, n) == ExcessSum(hashes)
  {
    if hashes == [] {
      WeightedEmpty(n);
    } else {
      var init := hashes[..|hashes| - 1];
      WeightedExcess(init, n);
      assert init + [hashes[|hashes| - 1]] == hashes;
      WeightedSnoc(init, hashes[|hashes| - 1], n);
    }
  }

  lemma {:induction false} WeightedEmpty(n: nat)
    ensures Weighted([], n) == 0
  {
    if n > 0 {
      WeightedEmpty(n - 1);
    }
  }

  /** What `eval` adds up from the histogram is the total excess of the
      buckets. */
  lemma HistogramScore(counts: seq<nat>, hashes: seq<nat>)
    requires IsHistogram(counts, hashes)
    ensures HistogramSum(counts, |counts|) == ExcessSum(hashes)
  {
    HistogramSumWeighted(counts, hashes, |counts|);
    WeightedExcess(hashes, |counts|);
  }

  /** No excess at all exactly when no entry exceeds one. */
  lemma {:induction false} ExcessSumZero(s: seq<nat>)
    ensures ExcessSum(s) == 0 <==> forall i | 0 <= i < |s| :: s[i] <= 1
  {
    if s != [] {
      var init := s[..|s| - 1];
      ExcessSumZero(init);
      assert forall i | 0 <= i < |init| :: init[i] == s[i];
    }
  }

  predicate Distinct(xs: seq<nat>)
  {
    forall i, j | 0 <= i < j < |xs| :: xs[i] != xs[j]
  }

  /** The buckets of `xs` hold at most one key each exactly when the
      entries of `xs` are pairwise distinct. */
  lemma {:induction false} BucketsAtMostOne(xs: seq<nat>, n: nat)
    requires forall k | 0 <= k < |xs| :: xs[k] < n
    ensures (forall h | 0 <= h < n :: Occ(xs, h) <= 1) <==> Distinct(xs)
  {
    if !Distinct(xs) {
      var i, j :| 0 <= i < j < |xs| && xs[i] == xs[j];
      OccTwo(xs, i, j);
      assert Occ(xs, xs[i]) >= 2;
    } else {
      forall h | 0 <= h < n
        ensures Occ(xs, h) <= 1
      {
        OccDistinct(xs, h);
      }
    }
  }

  lemma OccTwo(xs: seq<nat>, i: nat, j: nat)
    requires i < j < |xs| && xs[i] == xs[j]
    ensures Occ(xs, xs[i]) >= 2
  {
    var v := xs[i];
    assert xs == xs[..j] + xs[j..];
    OccAppend(xs[..j], xs[j..], v);
    assert xs[..j][i] == v;
    assert xs[j..][0] == v;
    OccPositive(xs[..j], i);
    OccPositive(xs[j..], 0);
  }

  lemma {:induction false} OccDistinct(xs: seq<nat>, v: nat)
    requires Distinct(xs)
    ensures Occ(xs, v) <= 1
  {
    if xs != [] {
      var init := xs[..|xs| - 1];
      assert Distinct(init);
      OccDistinct(init, v);
      if xs[|xs| - 1] == v {
        OccAbsent(init, v);
      }
    }
  }

  /** A value seen twice means the entries are not distinct. */
  lemma OccAboveOne(xs: seq<nat>, v: nat)
    requires Occ(xs, v) > 1
    ensures !Distinct(xs)
  {
    if Distinct(xs) {
      OccDistinct(xs, v);
    }
  }

  /** The total excess of the buckets of `xs` is zero exactly when no two
      entries share a bucket. */
  lemma NoExcessIffDistinct(xs: seq<nat>, n: nat)
    requires forall k | 0 <= k < |xs| :: xs[k] < n
    ensures ExcessSum(Buckets(xs, n)) == 0 <==> Distinct(xs)
  {
    var b := Buckets(xs, n);
    assert forall i | 0 <= i < n :: b[i] == Occ(xs, i);
    ExcessSumZero(b);
    BucketsAtMostOne(xs, n);
    if forall h | 0 <= h < n :: Occ(xs, h) <= 1 {
      assert forall i | 0 <= i < |b| :: b[i] <= 1;
    } else {
      var h :| 0 <= h < n && Occ(xs, h) > 1;
      assert b[h] > 1;
      OccAboveOne(xs, h);
    }
  }
}
