/** Ternary bit vectors: each position is 1, 0 or -1 (don't care), stored
    least significant first and trimmed to the highest non-zero position. */
module BitVectors {
  import opened Wrappers
  import opened Arith

  // ---------------------------------------------------------------------
  // Digit sequences

  predicate IsTrit(v: int) { -1 <= v <= 1 }

  predicate AllTrits(s: seq<int>)
  {
    forall i | 0 <= i < |s| :: IsTrit(s[i])
  }

  /** Number of entries of `s` equal to `v`. */
  function CountOf(s: seq<int>, v: int): (c: nat)
    ensures c <= |s|
  {
    if s == [] then 0 else (if s[0] == v then 1 else 0) + CountOf(s[1..], v)
  }

  lemma {:induction false} CountOfAppend(a: seq<int>, b: seq<int>, v: int)
    ensures CountOf(a + b, v) == CountOf(a, v) + CountOf(b, v)
  {
    if a != [] {
      var c := a + b;
      assert c != [] && c[0] == a[0] && c[1..] == a[1..] + b;
      CountOfAppend(a[1..], b, v);
    } else {
      assert a + b == b;
    }
  }

  lemma {:induction false} CountOfZero(s: seq<int>, v: int)
    ensures CountOf(s, v) == 0 <==> forall i | 0 <= i < |s| :: s[i] != v
  {
    if s != [] {
      CountOfZero(s[1..], v);
      assert forall i | 1 <= i < |s| :: s[i] == s[1..][i - 1];
    }
  }

  /** On trits, the three counts partition the length. */
  lemma {:induction false} CountOfPartition(s: seq<int>)
    requires AllTrits(s)
    ensures CountOf(s, -1) + CountOf(s, 0) + CountOf(s, 1) == |s|
  {
    if s != [] {
      CountOfPartition(s[1..]);
    }
  }

  function Ones(s: seq<int>): nat { CountOf(s, 1) }
  function DontCares(s: seq<int>): nat { CountOf(s, -1) }
  function NonZeros(s: seq<int>): nat { |s| - CountOf(s, 0) }

  lemma NonZerosSplit(s: seq<int>)
    requires AllTrits(s)
    ensures NonZeros(s) == Ones(s) + DontCares(s)
  {
    CountOfPartition(s);
  }

  /** One more than the index of the highest non-zero entry (0 when none). */
  function TrimmedLength(s: seq<int>): (n: nat)
    ensures n <= |s|
    ensures forall i | n <= i < |s| :: s[i] == 0
    ensures n > 0 ==> s[n - 1] != 0
  {
    if s == [] then 0
    else if s[|s| - 1] == 0 then TrimmedLength(s[..|s| - 1])
    else |s|
  }

  /** The three properties of TrimmedLength determine it. */
  lemma TrimmedLengthUnique(s: seq<int>, n: nat)
    requires n <= |s|
    requires forall i | n <= i < |s| :: s[i] == 0
    requires n > 0 ==> s[n - 1] != 0
    ensures TrimmedLength(s) == n
  {
    var m := TrimmedLength(s);
    assert !(m < n);
    assert !(n < m);
  }

  /** Reading past the end of a digit sequence gives 0. */
  function Get(s: seq<int>, i: nat): int
  {
    if i < |s| then s[i] else 0
  }

  // ---------------------------------------------------------------------
  // The vector

  /** `bits` is `m_bits`; `minNonZero` counts the ones and `maxNonZero`
      the non-zero entries (ones and don't cares). */
  datatype BitVector = BitVector(bits: seq<int>, minNonZero: nat, maxNonZero: nat)

  predicate WellFormed(v: BitVector)
  {
    && AllTrits(v.bits)
    && (|v.bits| > 0 ==> v.bits[|v.bits| - 1] != 0)
    && v.minNonZero == Ones(v.bits)
    && v.maxNonZero == NonZeros(v.bits)
  }

  type BitVec = v: BitVector | WellFormed(v) witness BitVector([], 0, 0)

  const BadBitMsg := "Bit is not -1 (X), 0 (False), or +1 (True)"

  /** The vector built from trits: storage is cut after the highest non-zero
      entry, and every position still reads as it did. */
  function Trimmed(s: seq<int>): (v: BitVec)
    requires AllTrits(s)
    ensures |v.bits| <= |s|
    ensures forall i: nat :: At(v, i) == Get(s, i)
  {
    var n := TrimmedLength(s);
    ZeroTail(s, n);
    BitVector(s[..n], Ones(s), NonZeros(s))
  }

  /** Zeros past position `n` change none of the counts of the prefix. */
  lemma ZeroTail(s: seq<int>, n: nat)
    requires AllTrits(s) && n <= |s|
    requires forall i | n <= i < |s| :: s[i] == 0
    ensures CountOf(s, 1) == CountOf(s[..n], 1)
    ensures CountOf(s, -1) == CountOf(s[..n], -1)
    ensures |s| - CountOf(s, 0) == n - CountOf(s[..n], 0)
  {
    var z := s[n..];
    assert s == s[..n] + z;
    CountOfAppend(s[..n], z, 1);
    CountOfAppend(s[..n], z, 0);
    CountOfAppend(s[..n], z, -1);
    CountOfZero(z, 1);
    CountOfZero(z, -1);
    CountOfPartition(z);
  }

  /** The `bit_vector(std::vector<int>)` constructor. */
  function Make(s: seq<int>): (r: Result<BitVec>)
    ensures r.Ok? <==> AllTrits(s)
    ensures r.Err? ==> r.msg == BadBitMsg
    ensures r.Ok? ==> forall i: nat :: At(r.value, i) == Get(s, i)
  {
    if AllTrits(s) then Ok(Trimmed(s)) else Err(BadBitMsg)
  }

  /** A well-formed vector is determined by the values it reads. */
  lemma {:induction false} Extensionality(a: BitVec, b: BitVec)
    requires forall i: nat :: At(a, i) == At(b, i)
    ensures a == b
  {
    if |b.bits| > 0 {
      assert At(a, |b.bits| - 1) == At(b, |b.bits| - 1);
    }
    if |a.bits| > 0 {
      assert At(a, |a.bits| - 1) == At(b, |a.bits| - 1);
    }
    assert |a.bits| == |b.bits|;
    assert forall i | 0 <= i < |a.bits| :: a.bits[i] == At(a, i) == At(b, i) == b.bits[i];
    assert a.bits == b.bits;
  }

  lemma TrimmedOfBits(v: BitVec)
    ensures Trimmed(v.bits) == v
  {
    Extensionality(Trimmed(v.bits), v);
  }

  /** `setCounts`: one descending pass that validates every entry, counts
      ones and non-zeros and remembers the highest non-zero index, then
      resizes the storage. */
  method SetCounts(s: seq<int>) returns (r: Result<BitVec>)
    ensures r == Make(s)
  {
    var lastNonZero: int := -1;
    var minNonZero: nat := 0;
    var maxNonZero: nat := 0;
    var i: int := |s| - 1;
    while i >= 0
      invariant -1 <= i < |s|
      invariant forall j | i < j < |s| :: IsTrit(s[j])
      invariant minNonZero == CountOf(s[i + 1..], 1)
      invariant maxNonZero == |s[i + 1..]| - CountOf(s[i + 1..], 0)
      invariant lastNonZero == -1 || (i < lastNonZero < |s| && s[lastNonZero] != 0)
      invariant forall j | i < j < |s| && j > lastNonZero :: s[j] == 0
    {
      var v := s[i];
      if v < -1 || v > 1 {
        return Err(BadBitMsg);
      }
      assert s[i..][1..] == s[i + 1..];
      if v == 1 {
        minNonZero := minNonZero + 1;
      }
      if v != 0 {
        maxNonZero := maxNonZero + 1;
        if lastNonZero < i {
          lastNonZero := i;
        }
      }
      i := i - 1;
    }
    assert s[0..] == s;
    TrimmedLengthUnique(s, lastNonZero + 1);
    r := Ok(Trimmed(s));
    assert r.value.bits == s[..lastNonZero + 1];
  }

  /** `operator[]`: reading at or beyond `size()` gives 0. */
  function At(v: BitVector, o: nat): (r: int)
  {
    if o >= |v.bits| then 0 else v.bits[o]
  }

  function Size(v: BitVec): nat { |v.bits| }

  /** `is_concrete`: the two counts agree. */
  predicate IsConcrete(v: BitVec)
  {
    v.minNonZero == v.maxNonZero
  }

  lemma ConcreteIff(v: BitVec)
    ensures IsConcrete(v) <==> forall i: nat :: At(v, i) != -1
  {
    NonZerosSplit(v.bits);
    CountOfZero(v.bits, -1);
    if !IsConcrete(v) {
      var i :| 0 <= i < |v.bits| && v.bits[i] == -1;
      assert At(v, i) == -1;
    }
  }

  /** `count`: the number of ones of a concrete vector. */
  function Count(v: BitVec): (r: Result<nat>)
    ensures r.Ok? <==> forall i: nat :: At(v, i) != -1
    ensures r.Ok? ==> r.value == CountOf(v.bits, 1)
    ensures r.Err? ==> r.msg == "Vector contains unknowns"
  {
    ConcreteIff(v);
    NonZerosSplit(v.bits);
    if v.minNonZero != v.maxNonZero then Err("Vector contains unknowns") else Ok(v.maxNonZero)
  }

  // ---------------------------------------------------------------------
  // Ordering

  /** Entries i-1 down to 0 of two equal-length sequences, compared from the
      highest index down. */
  function LessFrom(x: seq<int>, y: seq<int>, i: nat): bool
    requires |x| == |y| && i <= |x|
  {
    if i == 0 then false
    else if x[i - 1] < y[i - 1] then true
    else if x[i - 1] > y[i - 1] then false
    else LessFrom(x, y, i - 1)
  }

  /** `operator<`: the shorter vector first, equal sizes from the MSB down. */
  predicate Less(a: BitVec, b: BitVec)
  {
    if |a.bits| > |b.bits| then false
    else if |a.bits| < |b.bits| then true
    else LessFrom(a.bits, b.bits, |a.bits|)
  }

  lemma {:induction false} LessFromIrreflexive(x: seq<int>, i: nat)
    requires i <= |x|
    ensures !LessFrom(x, x, i)
  {
    if i > 0 {
      LessFromIrreflexive(x, i - 1);
    }
  }

  lemma {:induction false} LessFromAsymmetric(x: seq<int>, y: seq<int>, i: nat)
    requires |x| == |y| && i <= |x|
    ensures LessFrom(x, y, i) ==> !LessFrom(y, x, i)
  {
    if i > 0 {
      LessFromAsymmetric(x, y, i - 1);
    }
  }

  lemma {:induction false} LessFromTransitive(x: seq<int>, y: seq<int>, z: seq<int>, i: nat)
    requires |x| == |y| == |z| && i <= |x|
    requires LessFrom(x, y, i) && LessFrom(y, z, i)
    ensures LessFrom(x, z, i)
  {
    if x[i - 1] == y[i - 1] == z[i - 1] {
      LessFromTransitive(x, y, z, i - 1);
    }
  }

  lemma {:induction false} LessFromConnected(x: seq<int>, y: seq<int>, i: nat)
    requires |x| == |y| && i <= |x|
    requires x[..i] != y[..i]
    ensures LessFrom(x, y, i) || LessFrom(y, x, i)
  {
    if x[i - 1] == y[i - 1] {
      assert x[..i] == x[..i - 1] + [x[i - 1]];
      assert y[..i] == y[..i - 1] + [y[i - 1]];
      LessFromConnected(x, y, i - 1);
    }
  }

  lemma LessIrreflexive(a: BitVec)
    ensures !Less(a, a)
  {
    LessFromIrreflexive(a.bits, |a.bits|);
  }

  lemma LessAsymmetric(a: BitVec, b: BitVec)
    ensures Less(a, b) ==> !Less(b, a)
  {
    if |a.bits| == |b.bits| {
      LessFromAsymmetric(a.bits, b.bits, |a.bits|);
    }
  }

  lemma LessTransitive(a: BitVec, b: BitVec, c: BitVec)
    requires Less(a, b) && Less(b, c)
    ensures Less(a, c)
  {
    if |a.bits| == |b.bits| == |c.bits| {
      LessFromTransitive(a.bits, b.bits, c.bits, |a.bits|);
    }
  }

  /** Distinct well-formed vectors are always ranked one way or the other,
      so `operator<` is a strict total order (the order of `std::map`). */
  lemma LessConnected(a: BitVec, b: BitVec)
    requires a != b
    ensures Less(a, b) || Less(b, a)
  {
    if |a.bits| == |b.bits| {
      assert a.bits[..|a.bits|] == a.bits && b.bits[..|b.bits|] == b.bits;
      assert a.bits != b.bits;
      LessFromConnected(a.bits, b.bits, |a.bits|);
    }
  }

  // ---------------------------------------------------------------------
  // Overlap

  /** Two digits are compatible when either is a don't care or they agree. */
  predicate Agree(x: int, y: int)
  {
    x == -1 || y == -1 || x == y
  }

  function OverlapsFrom(a: BitVec, b: BitVec, i: nat): bool
    decreases if |a.bits| > |b.bits| then |a.bits| - i else |b.bits| - i
  {
    if i >= |a.bits| && i >= |b.bits| then true
    else if At(a, i) != -1 && At(b, i) != -1 && At(a, i) != At(b, i) then false
    else OverlapsFrom(a, b, i + 1)
  }

  /** `overlaps`: the variant sets of `a` and `b` intersect. */
  predicate Overlaps(a: BitVec, b: BitVec)
  {
    OverlapsFrom(a, b, 0)
  }

  lemma {:induction false} OverlapsFromIff(a: BitVec, b: BitVec, i: nat)
    ensures OverlapsFrom(a, b, i) <==> forall j: nat | i <= j :: Agree(At(a, j), At(b, j))
    decreases if |a.bits| > |b.bits| then |a.bits| - i else |b.bits| - i
  {
    if i >= |a.bits| && i >= |b.bits| {
      assert forall j: nat | i <= j :: At(a, j) == 0 == At(b, j);
    } else if At(a, i) != -1 && At(b, i) != -1 && At(a, i) != At(b, i) {
    } else {
      OverlapsFromIff(a, b, i + 1);
    }
  }

  lemma OverlapsIff(a: BitVec, b: BitVec)
    ensures Overlaps(a, b) <==> forall j: nat :: Agree(At(a, j), At(b, j))
  {
    OverlapsFromIff(a, b, 0);
  }

  lemma OverlapsSymmetric(a: BitVec, b: BitVec)
    ensures Overlaps(a, b) == Overlaps(b, a)
  {
    OverlapsIff(a, b);
    OverlapsIff(b, a);
  }

  lemma OverlapsReflexive(a: BitVec)
    ensures Overlaps(a, a)
  {
    OverlapsIff(a, a);
  }

  // ---------------------------------------------------------------------
  // Masks and variants

  /** `get_concrete_mask(w)`: 1 at every defined position below `w`. */
  function ConcreteMask(v: BitVec, w: nat): (m: BitVec)
    ensures forall i: nat :: At(m, i) == (if i < w && At(v, i) != -1 then 1 else 0)
    ensures IsConcrete(m)
  {
    var m := Trimmed(seq(w, i requires 0 <= i < w => if At(v, i) != -1 then 1 else 0));
    ConcreteIff(m);
    m
  }

  /** `variants_count`: one variant per assignment of the don't cares. */
  function VariantsCount(v: BitVec): (n: nat)
    ensures n == Pow2(DontCares(v.bits))
  {
    NonZerosSplit(v.bits);
    Pow2(v.maxNonZero - v.minNonZero)
  }

  /** Replaces the k-th don't care (counting from position 0) by bit k of `o`. */
  function Fill(s: seq<int>, o: nat): (r: seq<int>)
    ensures |r| == |s|
    ensures AllTrits(s) ==> AllTrits(r)
    ensures forall i | 0 <= i < |r| :: r[i] != -1
  {
    if s == [] then []
    else if s[0] == -1 then [o % 2] + Fill(s[1..], o / 2)
    else [s[0]] + Fill(s[1..], o)
  }

  lemma {:induction false} FillAt(s: seq<int>, o: nat, i: nat)
    requires i < |s|
    ensures Fill(s, o)[i] == if s[i] == -1 then Bit(o, DontCares(s[..i])) else s[i]
  {
    if i > 0 {
      var o' := if s[0] == -1 then o / 2 else o;
      FillAt(s[1..], o', i - 1);
      assert s[..i] == [s[0]] + s[1..][..i - 1];
      CountOfAppend([s[0]], s[1..][..i - 1], -1);
    }
  }

  /** Variant `o` of `v`, the vector that `*it` yields at offset `o`. */
  function Variant(v: BitVec, o: nat): BitVec
  {
    Trimmed(Fill(v.bits, o))
  }

  /** Variant `o` keeps every concrete position and gives the k-th don't
      care (ascending) bit k of `o`. */
  lemma VariantAt(v: BitVec, o: nat, i: nat)
    ensures At(Variant(v, o), i) ==
      if At(v, i) == -1 then Bit(o, DontCares(v.bits[..i])) else At(v, i)
  {
    if i < |v.bits| {
      FillAt(v.bits, o, i);
    }
  }

  lemma VariantIsConcrete(v: BitVec, o: nat)
    ensures IsConcrete(Variant(v, o))
  {
    var w := Variant(v, o);
    forall i: nat
      ensures At(w, i) != -1
    {
      VariantAt(v, o, i);
    }
    ConcreteIff(w);
  }

  lemma VariantOverlaps(v: BitVec, o: nat)
    ensures Overlaps(v, Variant(v, o))
  {
    forall j: nat
      ensures Agree(At(v, j), At(Variant(v, o), j))
    {
      VariantAt(v, o, j);
    }
    OverlapsIff(v, Variant(v, o));
  }

  /** Every rank below the number of don't cares belongs to one position. */
  lemma {:induction false} DontCareOfRank(s: seq<int>, k: nat)
    requires k < DontCares(s)
    ensures exists p :: 0 <= p < |s| && s[p] == -1 && DontCares(s[..p]) == k
  {
    var n := |s| - 1;
    assert s == s[..n] + [s[n]];
    CountOfAppend(s[..n], [s[n]], -1);
    if k < DontCares(s[..n]) {
      DontCareOfRank(s[..n], k);
      var p :| 0 <= p < n && s[..n][p] == -1 && DontCares(s[..n][..p]) == k;
      assert s[..n][..p] == s[..p];
    } else {
      assert s[n] == -1 && DontCares(s[..n]) == k;
    }
  }

  /** The variants 0 .. variants_count()-1 are pairwise different. */
  lemma VariantsDistinct(v: BitVec, o1: nat, o2: nat)
    requires o1 < VariantsCount(v) && o2 < VariantsCount(v) && o1 != o2
    ensures Variant(v, o1) != Variant(v, o2)
  {
    BitsDiffer(o1, o2, DontCares(v.bits));
    var k: nat :| k < DontCares(v.bits) && Bit(o1, k) != Bit(o2, k);
    DontCareOfRank(v.bits, k);
    var p :| 0 <= p < |v.bits| && v.bits[p] == -1 && DontCares(v.bits[..p]) == k;
    VariantAt(v, o1, p);
    VariantAt(v, o2, p);
  }

  // ---------------------------------------------------------------------
  // Iterating over the variants

  /** Rank of each don't care equals its index in `undefined`. */
  ghost predicate DontCarePositions(s: seq<int>, undefined: seq<nat>)
  {
    && |undefined| == DontCares(s)
    && forall k | 0 <= k < |undefined| ::
         undefined[k] < |s| && s[undefined[k]] == -1 && DontCares(s[..undefined[k]]) == k
  }

  /** A don't care is found at the index of `undefined` given by its rank. */
  lemma PositionOfRank(s: seq<int>, undefined: seq<nat>, p: nat)
    requires DontCarePositions(s, undefined)
    requires p < |s| && s[p] == -1
    ensures DontCares(s[..p]) < |undefined| && undefined[DontCares(s[..p])] == p
  {
    var k := DontCares(s[..p]);
    assert s[..p + 1] == s[..p] + [s[p]];
    CountOfAppend(s[..p], [s[p]], -1);
    assert s == s[..p + 1] + s[p + 1..];
    CountOfAppend(s[..p + 1], s[p + 1..], -1);
    var q := undefined[k];
    if q < p {
      RankIncreases(s, q, p);
    } else if p < q {
      RankIncreases(s, p, q);
    }
  }

  lemma RankIncreases(s: seq<int>, p: nat, q: nat)
    requires p < q <= |s| && s[p] == -1
    ensures DontCares(s[..p]) < DontCares(s[..q])
  {
    assert s[..q] == s[..p] + [s[p]] + s[p + 1..q];
    CountOfAppend(s[..p] + [s[p]], s[p + 1..q], -1);
    CountOfAppend(s[..p], [s[p]], -1);
  }

  /** `bit_vector::variant_iterator`: the current variant is kept in `bits`,
      the don't-care positions of the pattern in `undefined`. */
  class VariantIterator {
    var bits: seq<int>
    var undefined: seq<nat>
    var offset: nat
    ghost const pattern: seq<int>

    ghost predicate Valid()
      reads this
    {
      && AllTrits(pattern)
      && bits == Fill(pattern, offset)
      && DontCarePositions(pattern, undefined)
      && offset <= Pow2(|undefined|)
    }

    /** Substitutes the bits of `offset` into the don't cares of `s`. */
    constructor (s: seq<int>, offset: nat)
      requires AllTrits(s)
      requires offset <= Pow2(DontCares(s))
      ensures Valid() && pattern == s && this.offset == offset
    {
      pattern := s;
      bits := s;
      undefined := [];
      this.offset := offset;
      new;
      var i := 0;
      while i < |s|
        invariant 0 <= i <= |s|
        invariant this.offset == offset && |bits| == |s|
        invariant forall j | 0 <= j < i :: bits[j] == Fill(s, offset)[j]
        invariant forall j | i <= j < |s| :: bits[j] == s[j]
        invariant |undefined| == DontCares(s[..i])
        invariant forall k | 0 <= k < |undefined| ::
          undefined[k] < i && s[undefined[k]] == -1 && DontCares(s[..undefined[k]]) == k
      {
        FillAt(s, offset, i);
        assert s[..i + 1] == s[..i] + [s[i]];
        CountOfAppend(s[..i], [s[i]], -1);
        if bits[i] == -1 {
          bits := bits[i := Bit(offset, |undefined|)];
          undefined := undefined + [i];
        }
        i := i + 1;
      }
      assert s[..i] == s;
      assert bits == Fill(s, offset);
    }

    /** `operator*`. */
    function Current(): (v: BitVec)
      reads this
      requires Valid()
      ensures v == Variant(Trimmed(pattern), offset)
    {
      TrimmedFill(pattern, offset);
      Trimmed(bits)
    }

    /** `operator==` compares offsets only; over one pattern and in range
        that is equality of the variants they denote. */
    predicate SameOffset(o: VariantIterator)
      reads this, o
      requires Valid() && o.Valid() && pattern == o.pattern
      requires offset < Pow2(|undefined|) && o.offset < Pow2(|o.undefined|)
      ensures SameOffset(o) <==> Current() == o.Current()
    {
      var v := Trimmed(pattern);
      TrimmedDontCares(pattern);
      if offset == o.offset then true
      else
        VariantsDistinct(v, offset, o.offset);
        false
    }

    /** `operator++`: moves to the next offset and rewrites each don't care. */
    method Next()
      requires Valid() && offset < Pow2(|undefined|)
      modifies this
      ensures Valid()
      ensures offset == old(offset) + 1 && undefined == old(undefined)
    {
      ghost var prev := bits;
      offset := offset + 1;
      var i := 0;
      while i < |undefined|
        invariant 0 <= i <= |undefined|
        invariant offset == old(offset) + 1 && undefined == old(undefined)
        invariant prev == old(bits)
        invariant |bits| == |pattern|
        invariant forall p | 0 <= p < |pattern| ::
          bits[p] == if pattern[p] == -1 && DontCares(pattern[..p]) < i
                     then Fill(pattern, offset)[p] else prev[p]
      {
        forall p | 0 <= p < |pattern|
          ensures Fill(pattern, offset)[p] == (if pattern[p] == -1 then Bit(offset, DontCares(pattern[..p])) else pattern[p])
          ensures prev[p] == (if pattern[p] == -1 then Bit(offset - 1, DontCares(pattern[..p])) else pattern[p])
          ensures pattern[p] == -1 ==>
            DontCares(pattern[..p]) < |undefined| && undefined[DontCares(pattern[..p])] == p
        {
          FillAt(pattern, offset, p);
          FillAt(pattern, offset - 1, p);
          if pattern[p] == -1 {
            PositionOfRank(pattern, undefined, p);
          }
        }
        bits := bits[undefined[i] := Bit(offset, i)];
        i := i + 1;
      }
      forall p | 0 <= p < |pattern|
        ensures bits[p] == Fill(pattern, offset)[p]
      {
        FillAt(pattern, offset, p);
        FillAt(pattern, offset - 1, p);
        if pattern[p] == -1 {
          PositionOfRank(pattern, undefined, p);
        }
      }
    }
  }

  lemma TrimmedDontCares(s: seq<int>)
    requires AllTrits(s)
    ensures DontCares(Trimmed(s).bits) == DontCares(s)
  {
    var n := TrimmedLength(s);
    assert s == s[..n] + s[n..];
    CountOfAppend(s[..n], s[n..], -1);
    CountOfZero(s[n..], -1);
  }

  /** Filling a pattern and trimming commute: trailing zeros of the pattern
      are concrete and survive the fill unchanged. */
  lemma TrimmedFill(s: seq<int>, o: nat)
    requires AllTrits(s)
    ensures Trimmed(Fill(Trimmed(s).bits, o)) == Trimmed(Fill(s, o))
  {
    var t := Trimmed(s).bits;
    var n := |t|;
    assert t == s[..n];
    forall i: nat
      ensures Get(Fill(t, o), i) == Get(Fill(s, o), i)
    {
      if i < n {
        FillAt(t, o, i);
        FillAt(s, o, i);
        assert t[..i] == s[..i];
      } else if i < |s| {
        FillAt(s, o, i);
        assert At(Trimmed(s), i) == 0;
      }
    }
    Extensionality(Trimmed(Fill(t, o)), Trimmed(Fill(s, o)));
  }

  /** `variants_begin()`. */
  method VariantsBegin(v: BitVec) returns (it: VariantIterator)
    ensures fresh(it) && it.Valid() && it.pattern == v.bits && it.offset == 0
  {
    it := new VariantIterator(v.bits, 0);
  }

  /** `variants_end()`. */
  method VariantsEnd(v: BitVec) returns (it: VariantIterator)
    ensures fresh(it) && it.Valid() && it.pattern == v.bits && it.offset == VariantsCount(v)
  {
    it := new VariantIterator(v.bits, VariantsCount(v));
  }

  // ---------------------------------------------------------------------
  // Conversion to and from unsigned values

  /** Binary digits of `x`, least significant first, without leading zeros. */
  function Binary(x: nat): (s: seq<int>)
    ensures AllTrits(s)
    ensures forall i | 0 <= i < |s| :: s[i] == 0 || s[i] == 1
  {
    if x == 0 then [] else [x % 2] + Binary(x / 2)
  }

  /** The value of a 0/1 digit sequence, least significant first. */
  function Value(s: seq<int>): nat
  {
    if s == [] then 0 else (if s[0] == 1 then 1 else 0) + 2 * Value(s[1..])
  }

  /** `to_bit_vector`. */
  function ToBitVector(x: nat): BitVec
  {
    Trimmed(Binary(x))
  }

  /** `to_unsigned`: fails on a don't care, otherwise ORs in each bit. */
  function ToUnsigned(v: BitVec): (r: Result<nat>)
    ensures r.Err? <==> !IsConcrete(v)
    ensures r.Err? ==> r.msg == "Value is abstract."
  {
    ConcreteIff(v);
    assert forall i | 0 <= i < |v.bits| :: At(v, i) == v.bits[i];
    if exists i | 0 <= i < |v.bits| :: v.bits[i] == -1 then Err("Value is abstract.")
    else Ok(Value(v.bits))
  }

  lemma {:induction false} BinaryTrimmed(x: nat)
    ensures |Binary(x)| > 0 ==> Binary(x)[|Binary(x)| - 1] == 1
  {
    if x > 0 {
      BinaryTrimmed(x / 2);
    }
  }

  lemma {:induction false} ValueOfBinary(x: nat)
    ensures Value(Binary(x)) == x
  {
    if x > 0 {
      ValueOfBinary(x / 2);
      assert Binary(x)[1..] == Binary(x / 2);
    }
  }

  lemma {:induction false} BinaryOfValue(s: seq<int>)
    requires forall i | 0 <= i < |s| :: s[i] == 0 || s[i] == 1
    requires |s| > 0 ==> s[|s| - 1] == 1
    ensures Binary(Value(s)) == s
  {
    if s != [] {
      BinaryOfValue(s[1..]);
      if s[1..] != [] {
        assert s[1..][|s[1..]| - 1] == 1;
        ValuePositive(s[1..]);
      }
    }
  }

  lemma {:induction false} ValuePositive(s: seq<int>)
    requires |s| > 0 && s[|s| - 1] == 1
    ensures Value(s) > 0
  {
    if |s| > 1 {
      ValuePositive(s[1..]);
    }
  }

  /** `to_unsigned(to_bit_vector(x)) == x`. */
  lemma UnsignedRoundTrip(x: nat)
    ensures ToUnsigned(ToBitVector(x)) == Ok(x)
  {
    BinaryTrimmed(x);
    var b := Binary(x);
    TrimmedLengthUnique(b, |b|);
    assert b[..|b|] == b;
    ValueOfBinary(x);
  }

  /** A concrete vector is rebuilt from its value. */
  lemma VectorRoundTrip(v: BitVec)
    requires IsConcrete(v)
    ensures ToBitVector(ToUnsigned(v).value) == v
  {
    ConcreteIff(v);
    assert forall i | 0 <= i < |v.bits| :: v.bits[i] == At(v, i);
    BinaryOfValue(v.bits);
    TrimmedOfBits(v);
  }

  // ---------------------------------------------------------------------
  // Text form

  function TritChar(t: int): char
  {
    if t == 1 then '1' else if t == 0 then '0' else 'u'
  }

  /** Digits written most significant first. */
  function Digits(s: seq<int>): (r: string)
    ensures |r| == |s|
    ensures forall i | 0 <= i < |s| :: r[|r| - 1 - i] == TritChar(s[i])
  {
    if s == [] then "" else Digits(s[1..]) + [TritChar(s[0])]
  }

  /** `to_string`: "0b" followed by the digits, "0b0" for the empty vector. */
  function ToString(v: BitVec): string
  {
    if |v.bits| == 0 then "0b0" else "0b" + Digits(v.bits)
  }

  /** `isspace` in the C locale. */
  predicate IsSpace(c: char)
  {
    c == ' ' || 9 <= c as int <= 13
  }

  function ToLower(c: char): char
  {
    if 'A' <= c <= 'Z' then (c as int + 32) as char else c
  }

  function Lower(s: string): string
  {
    seq(|s|, i requires 0 <= i < |s| => ToLower(s[i]))
  }

  /** Number of blanks at the start of `s`. */
  function LeadingBlanks(s: string): (n: nat)
    ensures n <= |s|
    ensures forall k | 0 <= k < n :: IsSpace(s[k])
    ensures n < |s| ==> !IsSpace(s[n])
  {
    if |s| > 0 && IsSpace(s[0]) then
      var n := 1 + LeadingBlanks(s[1..]);
      assert forall k | 1 <= k < n :: s[k] == s[1..][k - 1];
      n
    else 0
  }

  /** Length of `s` without its blanks at the end. */
  function TrailingStart(s: string): (n: nat)
    ensures n <= |s|
    ensures forall k | n <= k < |s| :: IsSpace(s[k])
    ensures n > 0 ==> !IsSpace(s[n - 1])
  {
    if |s| > 0 && IsSpace(s[|s| - 1]) then TrailingStart(s[..|s| - 1]) else |s|
  }

  lemma LowerKeepsBlanks(c: char)
    ensures IsSpace(ToLower(c)) == IsSpace(c)
  {
  }

  /** `r` is `s[i..j]` lower-cased, and only blanks lie outside `i..j`. */
  predicate TrimsTo(s: string, r: string, i: nat, j: nat)
  {
    && i <= j <= |s|
    && r == Lower(s[i..j])
    && (forall k | 0 <= k < i :: IsSpace(s[k]))
    && (forall k | j <= k < |s| :: IsSpace(s[k]))
  }

  /** `trim`: whitespace removed at both ends (`erase` at the front,
      `pop_back` at the back), then lower-cased. */
  function Trim(s: string): (r: string)
    ensures exists i: nat, j: nat :: TrimsTo(s, r, i, j)
    ensures |r| > 0 ==> !IsSpace(r[0]) && !IsSpace(r[|r| - 1])
  {
    var i := LeadingBlanks(s);
    var j := i + TrailingStart(s[i..]);
    TrimBounds(s, i, j);
    var r := Lower(s[i..j]);
    if i < j then
      LowerKeepsBlanks(s[i]);
      LowerKeepsBlanks(s[j - 1]);
      r
    else r
  }

  lemma TrimBounds(s: string, i: nat, j: nat)
    requires i == LeadingBlanks(s) && j == i + TrailingStart(s[i..])
    ensures TrimsTo(s, Lower(s[i..j]), i, j)
    ensures i < j ==> !IsSpace(s[i]) && !IsSpace(s[j - 1])
  {
    assert forall k | j <= k < |s| :: s[k] == s[i..][k - i];
    if i < j {
      assert s[j - 1] == s[i..][j - 1 - i];
    }
  }

  datatype ULLParse = ULLParse(value: nat, rest: string, erange: bool)

  const ULLMax: nat := 0xFFFF_FFFF_FFFF_FFFF

  predicate IsTritChar(c: char) { c == '1' || c == '0' || c == 'u' }

  function CharTrit(c: char): int
  {
    if c == '1' then 1 else if c == '0' then 0 else -1
  }

  function BinaryMsg(c: char, t: string): string
  {
    "Unexpected character '" + [c] + "' in binary string while parsing '" + t + "'."
  }

  const HexMsg := "Unexpected character in hex string."

  function Prepend(p: seq<int>, r: Result<seq<int>>): Result<seq<int>>
  {
    if r.Ok? then Ok(p + r.value) else r
  }

  lemma PrependAssoc(a: seq<int>, b: seq<int>, r: Result<seq<int>>)
    ensures Prepend(a, Prepend(b, r)) == Prepend(a + b, r)
  {
    if r.Ok? {
      assert a + (b + r.value) == (a + b) + r.value;
    }
  }

  lemma PrependNothing(r: Result<seq<int>>)
    ensures Prepend([], r) == r
  {
    if r.Ok? {
      assert [] + r.value == r.value;
    }
  }

  /** Digits `i..` of the `0b` branch: entry i is read from character
      |t|-1-i, and the first bad character met in that order is reported. */
  function BinaryDigits(t: string, i: nat): Result<seq<int>>
    requires 2 <= |t| && i <= |t| - 2
    decreases |t| - 2 - i
  {
    if i == |t| - 2 then Ok([])
    else
      var c := t[|t| - 1 - i];
      if IsTritChar(c) then Prepend([CharTrit(c)], BinaryDigits(t, i + 1))
      else Err(BinaryMsg(c, t))
  }

  function HexValue(c: char): Option<nat>
  {
    if '0' <= c <= '9' then Some(c as int - '0' as int)
    else if 'a' <= c <= 'f' then Some(c as int - 'a' as int + 10)
    else None
  }

  /** The four bits of a hex digit, least significant first. */
  function Nibble(d: nat): seq<int>
  {
    [Bit(d, 0), Bit(d, 1), Bit(d, 2), Bit(d, 3)]
  }

  /** Hex digits `k..q-1` (digit k is character |t|-1-k), four entries each. */
  function HexDigits(t: string, k: nat, q: nat): Result<seq<int>>
    requires q <= |t| && k <= q
    decreases q - k
  {
    if k == q then Ok([])
    else
      match HexValue(t[|t| - 1 - k])
      case None => Err(HexMsg)
      case Some(d) => Prepend(Nibble(d), HexDigits(t, k + 1, q))
  }

  /** The `0x` branch as written: the loop steps `i` by 4 while `i < |t|`, so
      it reads only the last ceil(|t|/4) characters; the rest of the
      4*(|t|-2) entries stay zero. */
  function HexEntries(t: string): Result<seq<int>>
    requires |t| >= 2
  {
    var q := (|t| + 3) / 4;
    var n := 4 * (|t| - 2);
    var r := HexDigits(t, 0, q);
    if r.Err? then r
    else if |r.value| <= n then Ok(r.value + seq(n - |r.value|, _ => 0))
    else Ok(r.value)
  }

  lemma {:induction false} DigitsAreTrits(t: string, i: nat)
    requires 2 <= |t| && i <= |t| - 2
    ensures BinaryDigits(t, i).Ok? ==> AllTrits(BinaryDigits(t, i).value)
    ensures BinaryDigits(t, i).Ok? ==> |BinaryDigits(t, i).value| == |t| - 2 - i
    decreases |t| - 2 - i
  {
    if i < |t| - 2 {
      DigitsAreTrits(t, i + 1);
    }
  }

  lemma {:induction false} HexAreTrits(t: string, k: nat, q: nat)
    requires q <= |t| && k <= q
    ensures HexDigits(t, k, q).Ok? ==> AllTrits(HexDigits(t, k, q).value)
    ensures HexDigits(t, k, q).Ok? ==> |HexDigits(t, k, q).value| == 4 * (q - k)
    decreases q - k
  {
    if k < q {
      HexAreTrits(t, k + 1, q);
    }
  }

  /** The digit sequence `parse_bit_vector` hands to the constructor. */
  function ParseEntries(x: string, strtoull: string -> ULLParse): (r: Result<seq<int>>)
    ensures r.Ok? ==> AllTrits(r.value)
  {
    var t := Trim(x);
    if |t| >= 2 && t[..2] == "0b" then
      DigitsAreTrits(t, 0);
      BinaryDigits(t, 0)
    else if |t| >= 2 && t[..2] == "0x" then
      HexAreTrits(t, 0, (|t| + 3) / 4);
      HexEntries(t)
    else
      var p := strtoull(t);
      if p.value == ULLMax && p.erange then Err("Value exceeded range of an unsigned long long")
      else if p.rest != "" then Err("Couldn't parse entire string.")
      else Ok(Binary(p.value))
  }

  /** `parse_bit_vector`. */
  function Parse(x: string, strtoull: string -> ULLParse): Result<BitVec>
  {
    var r := ParseEntries(x, strtoull);
    if r.Err? then Err(r.msg) else Ok(Trimmed(r.value))
  }

  method ParseBinaryLoop(t: string) returns (r: Result<seq<int>>)
    requires |t| >= 2
    ensures r == BinaryDigits(t, 0)
  {
    var res: seq<int> := seq(|t| - 2, _ => 0);
    var i := 0;
    PrependNothing(BinaryDigits(t, 0));
    while i < |res|
      invariant 0 <= i <= |res| == |t| - 2
      invariant BinaryDigits(t, 0) == Prepend(res[..i], BinaryDigits(t, i))
    {
      var c := t[|t| - i - 1];
      if c == '1' {
        res := res[i := 1];
      } else if c == '0' {
        res := res[i := 0];
      } else if c == 'u' {
        res := res[i := -1];
      } else {
        return Err(BinaryMsg(c, t));
      }
      assert res[..i + 1] == res[..i] + [CharTrit(c)];
      PrependAssoc(res[..i], [CharTrit(c)], BinaryDigits(t, i + 1));
      i := i + 1;
    }
    assert res[..i] + [] == res;
    r := Ok(res);
  }

  /** The `for(j<4)` loop: writes the four bits of `val` from entry `i` on. */
  method WriteNibble(res: seq<int>, i: nat, val: nat) returns (out: seq<int>)
    requires i + 4 <= |res|
    ensures out == res[..i] + Nibble(val) + res[i + 4..]
  {
    out := res;
    var d := val;
    var j := 0;
    while j < 4
      invariant 0 <= j <= 4 && |out| == |res|
      invariant forall m: nat :: Bit(d, m) == Bit(val, j + m)
      invariant forall m | 0 <= m < j :: out[i + m] == Bit(val, m)
      invariant forall m | 0 <= m < |res| && !(i <= m < i + j) :: out[m] == res[m]
    {
      assert d % 2 == Bit(d, 0) == Bit(val, j);
      out := out[i + j := d % 2];
      assert forall m: nat :: Bit(d / 2, m) == Bit(d, m + 1);
      d := d / 2;
      j := j + 1;
    }
  }

  lemma HexBound(len: nat, k: nat)
    requires len >= 3 && k < (len + 3) / 4
    ensures 4 * k + 4 <= 4 * (len - 2)
  {
  }

  lemma HexFinish(t: string, q: nat, res: seq<int>, i: nat, n: nat)
    requires q == (|t| + 3) / 4 && n == 4 * (|t| - 2) && |res| == n
    requires i == 4 * q && i >= |t| && (i > 0 ==> i <= n)
    requires forall j | i <= j < n :: res[j] == 0
    requires HexDigits(t, 0, q) == Prepend(res[..i], HexDigits(t, q, q))
    ensures HexEntries(t) == Ok(res)
  {
    HexAreTrits(t, 0, q);
    assert res[..i] + [] == res[..i];
    assert res == res[..i] + seq(n - i, _ => 0);
  }

  method ParseHexLoop(t: string) returns (r: Result<seq<int>>)
    requires |t| >= 2 && t[..2] == "0x"
    ensures r == HexEntries(t)
  {
    var q := (|t| + 3) / 4;
    var n := 4 * (|t| - 2);
    var res: seq<int> := seq(n, _ => 0);
    var i := 0;
    ghost var k := 0;
    assert t[1] == t[..2][1] == 'x';
    PrependNothing(HexDigits(t, 0, q));
    while i < |t|
      invariant i == 4 * k && k <= q && |res| == n
      invariant i > 0 ==> |t| >= 3 && i <= n
      invariant forall j | i <= j < n :: res[j] == 0
      invariant HexDigits(t, 0, q) == Prepend(res[..i], HexDigits(t, k, q))
    {
      assert i / 4 == k;
      var c := t[|t| - i / 4 - 1];
      var val: nat;
      if '0' <= c <= '9' {
        val := c as int - '0' as int;
      } else if 'a' <= c <= 'f' {
        val := c as int - 'a' as int + 10;
      } else {
        return Err(HexMsg);
      }
      assert HexValue(c) == Some(val);
      HexBound(|t|, k);
      ghost var prefix := res[..i];
      res := WriteNibble(res, i, val);
      assert res[..i + 4] == prefix + Nibble(val);
      PrependAssoc(prefix, Nibble(val), HexDigits(t, k + 1, q));
      i := i + 4;
      k := k + 1;
    }
    HexFinish(t, q, res, i, n);
    r := Ok(res);
  }

  /** The `while(val)` loop of the decimal branch. */
  method BinaryLoop(x: nat) returns (res: seq<int>)
    ensures res == Binary(x)
  {
    var val: nat := x;
    res := [];
    while val > 0
      invariant res + Binary(val) == Binary(x)
      decreases val
    {
      assert Binary(val) == [val % 2] + Binary(val / 2);
      res := res + [val % 2];
      val := val / 2;
    }
    assert res + [] == res;
  }

  method ParseBitVector(x: string, strtoull: string -> ULLParse) returns (r: Result<BitVec>)
    ensures r == Parse(x, strtoull)
  {
    var t := Trim(x);
    var res: Result<seq<int>>;
    if |t| >= 2 && t[..2] == "0b" {
      res := ParseBinaryLoop(t);
    } else if |t| >= 2 && t[..2] == "0x" {
      res := ParseHexLoop(t);
    } else {
      var p := strtoull(t);
      if p.value == ULLMax && p.erange {
        return Err("Value exceeded range of an unsigned long long");
      }
      if p.rest != "" {
        return Err("Couldn't parse entire string.");
      }
      var b := BinaryLoop(p.value);
      res := Ok(b);
    }
    assert res == ParseEntries(x, strtoull);
    if res.Err? {
      return Err(res.msg);
    }
    r := Ok(Trimmed(res.value));
  }

  // ---------------------------------------------------------------------
  // Properties of the text form

  /** A string without surrounding blanks or capitals is its own trim. */
  predicate Plain(c: char)
  {
    !IsSpace(c) && !('A' <= c <= 'Z')
  }

  lemma TrimIdentity(s: string)
    requires forall i | 0 <= i < |s| :: Plain(s[i])
    ensures Trim(s) == s
  {
    assert LeadingBlanks(s) == 0;
    assert s[0..] == s;
    assert TrailingStart(s) == |s|;
    assert s[0..|s|] == s;
    assert Lower(s) == s;
  }

  lemma {:induction false} BinaryDigitsOfDigits(bits: seq<int>, i: nat)
    requires AllTrits(bits) && i <= |bits|
    ensures BinaryDigits("0b" + Digits(bits), i) == Ok(bits[i..])
    decreases |bits| - i
  {
    var t := "0b" + Digits(bits);
    if i == |bits| {
      assert bits[i..] == [];
    } else {
      BinaryDigitsOfDigits(bits, i + 1);
      assert t[|t| - 1 - i] == Digits(bits)[|bits| - 1 - i] == TritChar(bits[i]);
      assert bits[i..] == [bits[i]] + bits[i + 1..];
    }
  }

  lemma TrimOfToString(v: BitVec)
    ensures Trim(ToString(v)) == ToString(v)
  {
    var t := ToString(v);
    if |v.bits| > 0 {
      var d := Digits(v.bits);
      assert t == "0b" + d;
      forall i | 0 <= i < |d|
        ensures Plain(d[i])
      {
        assert d[i] == TritChar(v.bits[|d| - 1 - i]);
      }
      assert forall i | 2 <= i < |t| :: t[i] == d[i - 2];
    }
    TrimIdentity(t);
  }

  /** `parse_bit_vector(to_string(v)) == v`, through the `0b` branch. */
  lemma ParseToString(v: BitVec, strtoull: string -> ULLParse)
    ensures Parse(ToString(v), strtoull) == Ok(v)
  {
    var t := ToString(v);
    TrimOfToString(v);
    assert t[..2] == "0b";
    if |v.bits| == 0 {
      assert BinaryDigits(t, 1) == Ok([]);
      assert t[2] == '0';
      var none: seq<int> := [];
      assert [0] + none == [0];
      assert BinaryDigits(t, 0) == Prepend([0], Ok(none)) == Ok([0]);
      Extensionality(Trimmed([0]), v);
    } else {
      BinaryDigitsOfDigits(v.bits, 0);
      assert v.bits[0..] == v.bits;
      TrimmedOfBits(v);
    }
  }

  lemma {:induction false} BinaryDigitsRejects(t: string, i: nat, k: nat)
    requires 2 <= |t| && i <= |t| - 2
    requires 2 <= k < |t| - i && !IsTritChar(t[k])
    ensures BinaryDigits(t, i).Err?
    decreases |t| - 2 - i
  {
    if IsTritChar(t[|t| - 1 - i]) {
      BinaryDigitsRejects(t, i + 1, k);
    }
  }

  /** In the `0b` branch any character other than 0, 1 and u is an error. */
  lemma ParseRejectsBadBinary(x: string, strtoull: string -> ULLParse, k: nat)
    requires |Trim(x)| >= 2 && Trim(x)[..2] == "0b"
    requires 2 <= k < |Trim(x)| && !IsTritChar(Trim(x)[k])
    ensures Parse(x, strtoull).Err?
  {
    BinaryDigitsRejects(Trim(x), 0, k);
  }

  /** The `0x` branch as written reads only ceil(|t|/4) digits: in "0x1f"
      the digit 1 is never read, and the entries spell 0xf. */
  lemma HexReadsOnlyLowDigits()
    ensures HexEntries("0x1f") == Ok([1, 1, 1, 1, 0, 0, 0, 0])
  {
    var t := "0x1f";
    assert HexValue(t[3]) == Some(15);
    assert Nibble(15) == [1, 1, 1, 1];
    var none: seq<int> := [];
    assert HexDigits(t, 1, 1) == Ok(none);
    assert Nibble(15) + none == [1, 1, 1, 1];
    assert HexDigits(t, 0, 1) == Ok([1, 1, 1, 1]);
    assert [1, 1, 1, 1] + seq(4, _ => 0) == [1, 1, 1, 1, 0, 0, 0, 0];
  }
}
