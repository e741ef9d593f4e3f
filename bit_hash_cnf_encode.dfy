/** The clauses of `to_cnf`: the equality clauses that make every variant
    of a key group hash like its first variant, with constants folded and
    beside them the clauses as `to_cnf` writes them, the disequality clauses,
    built with a doubling accumulator, that make every two groups hash
    apart, and what a solution of them means for the substituted hash. */
module CnfEncoding {
  import opened Wrappers
  import opened Arith
  import opened BitVectors
  import opened BitHashes
  import opened Cnf

  // ---------------------------------------------------------------------
  // Codes and their truth

  /** The truth a hash code stands for: 0 is false, -1 is true, a variable
      is true when the solution gives it 1. */
  predicate CodeValue(sol: Solution, c: int)
  {
    c == -1 || (c > 0 && c in sol && sol[c] == 1)
  }

  /** The code is 0, -1 or a variable with a Boolean value in the
      solution. */
  predicate Assigned(sol: Solution, c: int)
  {
    c >= -1 && (c > 0 ==> c in sol && (sol[c] == 0 || sol[c] == 1))
  }

  /** Every code of both vectors from `k` on is assigned. */
  predicate AllAssigned(sol: Solution, h: seq<int>, k: nat)
  {
    forall o | k <= o < |h| :: Assigned(sol, h[o])
  }

  /** A variable code read as a literal holds exactly when the code is
      true, its negation exactly when it is false. */
  lemma LitCode(sol: Solution, c: int)
    requires c > 0 && Assigned(sol, c)
    ensures LitTrue(sol, c) <==> CodeValue(sol, c)
    ensures LitTrue(sol, -c) <==> !CodeValue(sol, c)
  {
  }

  // ---------------------------------------------------------------------
  // Clause algebra

  lemma ClauseTrueAppend(sol: Solution, c: Clause, d: Clause)
    ensures ClauseTrue(sol, c + d) <==> ClauseTrue(sol, c) || ClauseTrue(sol, d)
  {
    if ClauseTrue(sol, c + d) {
      var j :| 0 <= j < |c + d| && LitTrue(sol, (c + d)[j]);
      if j < |c| {
        assert LitTrue(sol, c[j]);
      } else {
        assert LitTrue(sol, d[j - |c|]);
      }
    }
    if ClauseTrue(sol, c) {
      var j :| 0 <= j < |c| && LitTrue(sol, c[j]);
      assert (c + d)[j] == c[j];
    }
    if ClauseTrue(sol, d) {
      var j :| 0 <= j < |d| && LitTrue(sol, d[j]);
      assert (c + d)[|c| + j] == d[j];
    }
  }

  lemma ClauseTrueOne(sol: Solution, x: int)
    ensures ClauseTrue(sol, [x]) <==> LitTrue(sol, x)
  {
    assert [x][0] == x;
  }

  lemma ClauseTrueTwo(sol: Solution, x: int, y: int)
    ensures ClauseTrue(sol, [x, y]) <==> LitTrue(sol, x) || LitTrue(sol, y)
  {
    ClauseTrueSplit(sol, [x, y]);
    assert [x, y][1..] == [y];
    ClauseTrueOne(sol, y);
  }

  lemma AllTrueAppend(sol: Solution, a: seq<Clause>, b: seq<Clause>)
    ensures AllTrue(sol, a + b) <==> AllTrue(sol, a) && AllTrue(sol, b)
  {
    if AllTrue(sol, a + b) {
      forall i | 0 <= i < |a| ensures ClauseTrue(sol, a[i]) {
        assert (a + b)[i] == a[i];
      }
      forall i | 0 <= i < |b| ensures ClauseTrue(sol, b[i]) {
        assert (a + b)[|a| + i] == b[i];
      }
    }
  }

  /** Each clause of `acc` widened by the literals of `d`: the CNF of
      "acc or d". */
  function EachOr(acc: seq<Clause>, d: Clause): (r: seq<Clause>)
    ensures |r| == |acc|
  {
    seq(|acc|, a requires 0 <= a < |acc| => acc[a] + d)
  }

  lemma EachOrMeaning(sol: Solution, acc: seq<Clause>, d: Clause)
    ensures AllTrue(sol, EachOr(acc, d)) <==> AllTrue(sol, acc) || ClauseTrue(sol, d)
  {
    var r := EachOr(acc, d);
    forall a | 0 <= a < |acc|
      ensures ClauseTrue(sol, r[a]) <==> ClauseTrue(sol, acc[a]) || ClauseTrue(sol, d)
    {
      ClauseTrueAppend(sol, acc[a], d);
    }
    if AllTrue(sol, r) && !ClauseTrue(sol, d) {
      assert forall a | 0 <= a < |acc| :: ClauseTrue(sol, r[a]);
    }
  }

  // ---------------------------------------------------------------------
  // Variant equality clauses

  /** The clauses, for one output bit, that make two codes equal: the
      constants folded, and for two variables (a | -b) & (-a | b). */
  function AgreeClauses(a: int, b: int): (r: seq<Clause>)
  {
    if a <= 0 && b <= 0 then (if a == b then [] else [[]])
    else if a <= 0 then (if a == 0 then [[-b]] else [[b]])
    else if b <= 0 then (if b == 0 then [[-a]] else [[a]])
    else [[a, -b], [-a, b]]
  }

  lemma AgreeMeaning(sol: Solution, a: int, b: int)
    requires Assigned(sol, a) && Assigned(sol, b)
    ensures AllTrue(sol, AgreeClauses(a, b)) <==> (CodeValue(sol, a) <==> CodeValue(sol, b))
  {
    var r := AgreeClauses(a, b);
    if a > 0 {
      LitCode(sol, a);
    }
    if b > 0 {
      LitCode(sol, b);
    }
    if a <= 0 && b <= 0 && a != b {
      assert !ClauseTrue(sol, r[0]);
    } else if a <= 0 && b > 0 {
      ClauseTrueOne(sol, r[0][0]);
    } else if a > 0 && b <= 0 {
      ClauseTrueOne(sol, r[0][0]);
    } else if a > 0 && b > 0 {
      ClauseTrueTwo(sol, a, -b);
      ClauseTrueTwo(sol, -a, b);
      assert r == [[a, -b], [-a, b]];
      assert AllTrue(sol, r) <==> ClauseTrue(sol, [a, -b]) && ClauseTrue(sol, [-a, b]) by {
        assert r[0] == [a, -b] && r[1] == [-a, b];
      }
    }
  }

  /** The equality clauses, bit by bit, for the first `n` output bits of a
      variant's codes `hx` against its group's first codes `h0`. */
  function AgreeBits(h0: seq<int>, hx: seq<int>, n: nat): seq<Clause>
    requires n <= |h0| && n <= |hx|
  {
    if n == 0 then [] else AgreeBits(h0, hx, n - 1) + AgreeClauses(h0[n - 1], hx[n - 1])
  }

  lemma {:induction false} AgreeBitsMeaning(sol: Solution, h0: seq<int>, hx: seq<int>, n: nat)
    requires n <= |h0| && n <= |hx|
    requires forall o | 0 <= o < n :: Assigned(sol, h0[o]) && Assigned(sol, hx[o])
    ensures AllTrue(sol, AgreeBits(h0, hx, n)) <==>
      forall o | 0 <= o < n :: CodeValue(sol, h0[o]) == CodeValue(sol, hx[o])
  {
    if n > 0 {
      AgreeBitsMeaning(sol, h0, hx, n - 1);
      AgreeMeaning(sol, h0[n - 1], hx[n - 1]);
      AllTrueAppend(sol, AgreeBits(h0, hx, n - 1), AgreeClauses(h0[n - 1], hx[n - 1]));
    }
  }

  /** The equality clauses as `to_cnf` writes them: (h0 | -hx) and
      (-h0 | hx) for every bit, the constant codes 0 and -1 included. */
  function AgreeBitsAsWritten(h0: seq<int>, hx: seq<int>, n: nat): seq<Clause>
    requires n <= |h0| && n <= |hx|
  {
    if n == 0 then []
    else AgreeBitsAsWritten(h0, hx, n - 1) + [[h0[n - 1], -hx[n - 1]], [-h0[n - 1], hx[n - 1]]]
  }

  /** Two variants whose output bit is decided 0 for both already agree,
      yet the clauses as written are [0, 0] twice: literal 0 names no
      variable, so no solution satisfies them, and `is_solution` fails on
      any solution without a key 0. */
  lemma AgreeBitsAsWrittenDecidedZero(sol: Solution)
    ensures AgreeBits([0], [0], 1) == []
    ensures AgreeBitsAsWritten([0], [0], 1) == [[0, 0], [0, 0]]
    ensures !AllTrue(sol, AgreeBitsAsWritten([0], [0], 1))
    ensures 0 !in sol ==> Cnf.IsSolution(AgreeBitsAsWritten([0], [0], 1), sol) == Err(AtMsg)
  {
    var cs := AgreeBitsAsWritten([0], [0], 1);
    assert cs == [[0, 0], [0, 0]];
    assert !LitTrue(sol, cs[0][0]) && !LitTrue(sol, cs[0][1]);
    assert !ClauseTrue(sol, cs[0]);
  }

  /** Where every code is a variable the two encodings coincide. */
  lemma {:induction false} AgreeBitsAsWrittenUnknown(h0: seq<int>, hx: seq<int>, n: nat)
    requires n <= |h0| && n <= |hx|
    requires forall o | 0 <= o < n :: h0[o] > 0 && hx[o] > 0
    ensures AgreeBitsAsWritten(h0, hx, n) == AgreeBits(h0, hx, n)
  {
    if n > 0 {
      AgreeBitsAsWrittenUnknown(h0, hx, n - 1);
    }
  }

  /** The equality loop of `to_cnf` for one variant. */
  method AgreeLoop(h0: seq<int>, hx: seq<int>, n: nat) returns (cs: seq<Clause>)
    requires n <= |h0| && n <= |hx|
    ensures cs == AgreeBits(h0, hx, n)
  {
    cs := [];
    for i := 0 to n
      invariant cs == AgreeBits(h0, hx, i)
    {
      cs := cs + AgreeClauses(h0[i], hx[i]);
    }
  }

  // ---------------------------------------------------------------------
  // Pair disequality clauses

  /** The two literals an undecided pair of bits adds to every clause of
      the accumulator: "differs at this bit", (x | y) & (-x | -y). */
  function Doubled(acc: seq<Clause>, x: int, y: int): (r: seq<Clause>)
    ensures |r| == 2 * |acc|
  {
    EachOr(acc, [x, y]) + EachOr(acc, [-x, -y])
  }

  lemma DoubledMeaning(sol: Solution, acc: seq<Clause>, x: int, y: int)
    requires x > 0 && y > 0 && Assigned(sol, x) && Assigned(sol, y)
    ensures AllTrue(sol, Doubled(acc, x, y)) <==> AllTrue(sol, acc) || CodeValue(sol, x) != CodeValue(sol, y)
  {
    AllTrueAppend(sol, EachOr(acc, [x, y]), EachOr(acc, [-x, -y]));
    EachOrMeaning(sol, acc, [x, y]);
    EachOrMeaning(sol, acc, [-x, -y]);
    LitCode(sol, x);
    LitCode(sol, y);
    ClauseTrueTwo(sol, x, y);
    ClauseTrueTwo(sol, -x, -y);
  }

  /** The pair loop of `to_cnf` from output bit `k` on, with accumulator
      `acc` standing for "the bits before `k` differ": equal decided bits
      are skipped, different decided bits make the pair need no clause,
      one decided bit widens every clause by the other bit's literal, and
      two undecided bits double the accumulator. */
  function PairFrom(acc: seq<Clause>, iH: seq<int>, jH: seq<int>, k: nat): seq<Clause>
    requires |iH| == |jH| && k <= |iH|
    decreases |iH| - k
  {
    if k == |iH| then acc
    else
      var iB := iH[k];
      var jB := jH[k];
      if iB <= 0 && jB <= 0 then
        if iB == jB then PairFrom(acc, iH, jH, k + 1) else []
      else
        var x := if jB <= 0 then jB else iB;
        var y := if jB <= 0 then iB else jB;
        if x <= 0 then PairFrom(EachOr(acc, [if x == 0 then y else -y]), iH, jH, k + 1)
        else PairFrom(Doubled(acc, x, y), iH, jH, k + 1)
  }

  /** The clauses for one pair of groups, from the accumulator holding
      the one empty clause. */
  function PairClauses(iH: seq<int>, jH: seq<int>): seq<Clause>
    requires |iH| == |jH|
  {
    PairFrom([[]], iH, jH, 0)
  }

  /** Some bit from `k` on has different truth in the two code vectors. */
  predicate DiffersFrom(sol: Solution, iH: seq<int>, jH: seq<int>, k: nat)
    requires |iH| == |jH|
  {
    exists o | k <= o < |iH| :: CodeValue(sol, iH[o]) != CodeValue(sol, jH[o])
  }

  lemma {:induction false} PairFromMeaning(sol: Solution, acc: seq<Clause>, iH: seq<int>, jH: seq<int>, k: nat)
    requires |iH| == |jH| && k <= |iH|
    requires AllAssigned(sol, iH, k) && AllAssigned(sol, jH, k)
    decreases |iH| - k
    ensures AllTrue(sol, PairFrom(acc, iH, jH, k)) <==> AllTrue(sol, acc) || DiffersFrom(sol, iH, jH, k)
  {
    if k < |iH| {
      var iB := iH[k];
      var jB := jH[k];
      assert DiffersFrom(sol, iH, jH, k) <==>
        CodeValue(sol, iB) != CodeValue(sol, jB) || DiffersFrom(sol, iH, jH, k + 1) by {
        if DiffersFrom(sol, iH, jH, k) {
          var o :| k <= o < |iH| && CodeValue(sol, iH[o]) != CodeValue(sol, jH[o]);
          if o > k {
            assert DiffersFrom(sol, iH, jH, k + 1);
          }
        }
      }
      if iB <= 0 && jB <= 0 {
        if iB == jB {
          PairFromMeaning(sol, acc, iH, jH, k + 1);
        } else {
          assert CodeValue(sol, iB) != CodeValue(sol, jB);
        }
      } else {
        var x := if jB <= 0 then jB else iB;
        var y := if jB <= 0 then iB else jB;
        assert CodeValue(sol, iB) != CodeValue(sol, jB) <==> CodeValue(sol, x) != CodeValue(sol, y);
        if x <= 0 {
          var acc' := EachOr(acc, [if x == 0 then y else -y]);
          PairFromMeaning(sol, acc', iH, jH, k + 1);
          EachOrMeaning(sol, acc, [if x == 0 then y else -y]);
          LitCode(sol, y);
          ClauseTrueOne(sol, if x == 0 then y else -y);
        } else {
          PairFromMeaning(sol, Doubled(acc, x, y), iH, jH, k + 1);
          DoubledMeaning(sol, acc, x, y);
        }
      }
    }
  }

  /** A pair's clauses hold exactly when the two hashes differ in some bit. */
  lemma PairClausesMeaning(sol: Solution, iH: seq<int>, jH: seq<int>)
    requires |iH| == |jH| && AllAssigned(sol, iH, 0) && AllAssigned(sol, jH, 0)
    ensures AllTrue(sol, PairClauses(iH, jH)) <==> DiffersFrom(sol, iH, jH, 0)
  {
    PairFromMeaning(sol, [[]], iH, jH, 0);
    assert !ClauseTrue(sol, [[]][0]);
  }

  /** Some bit from `k` on is decided in both vectors, differently. */
  predicate KnownApart(iH: seq<int>, jH: seq<int>, k: nat)
    requires |iH| == |jH|
  {
    exists o | k <= o < |iH| :: iH[o] <= 0 && jH[o] <= 0 && iH[o] != jH[o]
  }

  /** The number of bits from `k` on undecided in both vectors. */
  function BothUnknown(iH: seq<int>, jH: seq<int>, k: nat): nat
    requires |iH| == |jH| && k <= |iH|
    decreases |iH| - k
  {
    if k == |iH| then 0
    else (if iH[k] > 0 && jH[k] > 0 then 1 else 0) + BothUnknown(iH, jH, k + 1)
  }

  lemma {:induction false} PairFromCount(acc: seq<Clause>, iH: seq<int>, jH: seq<int>, k: nat)
    requires |iH| == |jH| && k <= |iH|
    decreases |iH| - k
    ensures |PairFrom(acc, iH, jH, k)| == if KnownApart(iH, jH, k) then 0 else |acc| * Pow2(BothUnknown(iH, jH, k))
  {
    if k < |iH| {
      var iB := iH[k];
      var jB := jH[k];
      assert KnownApart(iH, jH, k) <==>
        (iB <= 0 && jB <= 0 && iB != jB) || KnownApart(iH, jH, k + 1) by {
        if KnownApart(iH, jH, k) {
          var o :| k <= o < |iH| && iH[o] <= 0 && jH[o] <= 0 && iH[o] != jH[o];
          if o > k {
            assert KnownApart(iH, jH, k + 1);
          }
        }
      }
      if iB <= 0 && jB <= 0 {
        if iB == jB {
          PairFromCount(acc, iH, jH, k + 1);
        }
      } else {
        var x := if jB <= 0 then jB else iB;
        var y := if jB <= 0 then iB else jB;
        if x <= 0 {
          PairFromCount(EachOr(acc, [if x == 0 then y else -y]), iH, jH, k + 1);
        } else {
          PairFromCount(Doubled(acc, x, y), iH, jH, k + 1);
          var n := BothUnknown(iH, jH, k + 1);
          assert Pow2(n + 1) == 2 * Pow2(n);
          assert BothUnknown(iH, jH, k) == n + 1;
        }
      }
    }
  }

  /** A pair known apart at some bit gets no clause; otherwise it gets one
      clause per choice of a literal at each bit undecided on both sides. */
  lemma PairClausesCount(iH: seq<int>, jH: seq<int>)
    requires |iH| == |jH|
    ensures |PairClauses(iH, jH)| == if KnownApart(iH, jH, 0) then 0 else Pow2(BothUnknown(iH, jH, 0))
  {
    PairFromCount([[]], iH, jH, 0);
  }

  /** Two fully decided, equal hashes give the one empty clause: the pair
      cannot be separated. */
  lemma {:induction false} PairFromKnownEqual(acc: seq<Clause>, h: seq<int>, k: nat)
    requires k <= |h| && forall o | k <= o < |h| :: h[o] <= 0
    decreases |h| - k
    ensures PairFrom(acc, h, h, k) == acc
  {
    if k < |h| {
      PairFromKnownEqual(acc, h, k + 1);
    }
  }

  lemma PairClausesKnownEqual(h: seq<int>)
    requires forall o | 0 <= o < |h| :: h[o] <= 0
    ensures PairClauses(h, h) == [[]]
  {
    PairFromKnownEqual([[]], h, 0);
  }

  /** `c.push_back(t)` for every clause of the accumulator. */
  method AppendToEach(acc: seq<Clause>, t: int) returns (r: seq<Clause>)
    ensures r == EachOr(acc, [t])
  {
    r := acc;
    for a := 0 to |acc|
      invariant |r| == |acc|
      invariant forall b | 0 <= b < a :: r[b] == acc[b] + [t]
      invariant forall b | a <= b < |acc| :: r[b] == acc[b]
    {
      r := r[a := r[a] + [t]];
    }
  }

  /** The in-place doubling: each clause is copied to the back, the
      original gains (x, y) and the copy (-x, -y). */
  method DoubleAcc(acc: seq<Clause>, x: int, y: int) returns (r: seq<Clause>)
    ensures r == Doubled(acc, x, y)
  {
    r := acc;
    var aSize := |acc|;
    for a := 0 to aSize
      invariant |r| == aSize + a
      invariant forall b | 0 <= b < a :: r[b] == acc[b] + [x, y]
      invariant forall b | a <= b < aSize :: r[b] == acc[b]
      invariant forall b | 0 <= b < a :: r[aSize + b] == acc[b] + [-x, -y]
    {
      r := r + [r[a]];
      r := r[a := r[a] + [x, y]];
      r := r[a + aSize := r[a + aSize] + [-x, -y]];
    }
  }

  /** The accumulator loop of `to_cnf` for one pair of groups. */
  method PairLoop(iH: seq<int>, jH: seq<int>) returns (acc: seq<Clause>)
    requires |iH| == |jH|
    ensures acc == PairClauses(iH, jH)
  {
    acc := [[]];
    var iO := 0;
    while iO < |iH|
      invariant iO <= |iH|
      invariant PairFrom(acc, iH, jH, iO) == PairClauses(iH, jH)
    {
      var iB, jB := iH[iO], jH[iO];
      if iB <= 0 && jB <= 0 {
        if iB != jB {
          acc := [];
          break;
        }
      } else {
        if jB <= 0 {
          iB, jB := jB, iB;
        }
        if iB <= 0 {
          acc := AppendToEach(acc, if iB == 0 then jB else -jB);
        } else {
          acc := DoubleAcc(acc, iB, jB);
        }
      }
      iO := iO + 1;
    }
  }

  // ---------------------------------------------------------------------
  // to_cnf

  /** The concrete key variant `o` of group `k` stands for, `*it` of the
      variant iterator. */
  function VariantKey(k: BitVec, o: nat): BitVec
  {
    DeferredVariant(k, o, 1)
  }

  /** The variant behind `steps` recursion steps that compute nothing, so
      that the numbering proofs do not unfold how a variant is built;
      `VariantKeyIs` opens it. */
  function DeferredVariant(k: BitVec, o: nat, steps: nat): BitVec
  {
    if steps == 0 then Variant(k, o) else DeferredVariant(k, o, steps - 1)
  }

  lemma VariantKeyIs(k: BitVec, o: nat)
    ensures VariantKey(k, o) == Variant(k, o)
  {
    assert DeferredVariant(k, o, 1) == DeferredVariant(k, o, 0);
  }

  /** Every code vector of a group, and of every group, has `w` codes. */
  predicate Shaped(g: seq<seq<int>>, w: nat)
  {
    forall o | 0 <= o < |g| :: |g[o]| == w
  }

  predicate Cube(cs: seq<seq<seq<int>>>, w: nat)
  {
    forall i | 0 <= i < |cs| :: Shaped(cs[i], w)
  }

  /** The equality clauses of a group whose variants have the codes `g`:
      every variant after the first against the first, in variant order. */
  function GroupAgree(g: seq<seq<int>>, w: nat): seq<Clause>
    requires Shaped(g, w)
  {
    if |g| <= 1 then []
    else GroupAgree(g[..|g| - 1], w) + AgreeBits(g[0], g[|g| - 1], w)
  }

  /** The equality clauses of the groups, in group order. */
  function VariantPart(cs: seq<seq<seq<int>>>, w: nat): seq<Clause>
    requires Cube(cs, w)
  {
    if |cs| == 0 then [] else VariantPart(cs[..|cs| - 1], w) + GroupAgree(cs[|cs| - 1], w)
  }

  /** `GroupAgree` with the equality clauses as `to_cnf` writes them. */
  function GroupAgreeAsWritten(g: seq<seq<int>>, w: nat): seq<Clause>
    requires Shaped(g, w)
  {
    if |g| <= 1 then []
    else GroupAgreeAsWritten(g[..|g| - 1], w) + AgreeBitsAsWritten(g[0], g[|g| - 1], w)
  }

  /** `VariantPart` with the equality clauses as `to_cnf` writes them. */
  function VariantPartAsWritten(cs: seq<seq<seq<int>>>, w: nat): seq<Clause>
    requires Cube(cs, w)
  {
    if |cs| == 0 then [] else VariantPartAsWritten(cs[..|cs| - 1], w) + GroupAgreeAsWritten(cs[|cs| - 1], w)
  }

  /** A group whose codes are all variables gets the same clauses from
      both encodings. */
  lemma {:induction false} GroupAgreeAsWrittenUnknown(g: seq<seq<int>>, w: nat)
    requires Shaped(g, w)
    requires forall o, b | 0 <= o < |g| && 0 <= b < w :: g[o][b] > 0
    ensures GroupAgreeAsWritten(g, w) == GroupAgree(g, w)
  {
    if |g| > 1 {
      GroupAgreeAsWrittenUnknown(g[..|g| - 1], w);
      AgreeBitsAsWrittenUnknown(g[0], g[|g| - 1], w);
    }
  }

  /** The two encodings of the groups coincide when every group of more
      than one variant reads only undecided entries; a group of one
      variant has no equality clauses in either. */
  lemma {:induction false} VariantPartAsWrittenUnknown(cs: seq<seq<seq<int>>>, w: nat)
    requires Cube(cs, w)
    requires forall i, o, b | 0 <= i < |cs| && 1 < |cs[i]| && 0 <= o < |cs[i]| && 0 <= b < w ::
      cs[i][o][b] > 0
    ensures VariantPartAsWritten(cs, w) == VariantPart(cs, w)
  {
    if |cs| > 0 {
      var g := cs[|cs| - 1];
      assert Shaped(g, w);
      VariantPartAsWrittenUnknown(cs[..|cs| - 1], w);
      if |g| > 1 {
        GroupAgreeAsWrittenUnknown(g, w);
      }
    }
  }

  /** The first variant's codes of each group: `hashes`. */
  function Firsts(cs: seq<seq<seq<int>>>): (hs: seq<seq<int>>)
    requires forall i | 0 <= i < |cs| :: |cs[i]| > 0
    ensures |hs| == |cs|
  {
    seq(|cs|, i requires 0 <= i < |cs| => cs[i][0])
  }

  /** Code vectors of one length. */
  predicate Rectangular(hs: seq<seq<int>>)
  {
    forall i, j | 0 <= i < |hs| && 0 <= j < |hs| :: |hs[i]| == |hs[j]|
  }

  /** The clauses of the pairs (iK, jK) for iK < jK < n. */
  function PairRow(hs: seq<seq<int>>, iK: nat, n: nat): seq<Clause>
    requires Rectangular(hs) && iK < |hs| && n <= |hs|
  {
    if n <= iK + 1 then [] else PairRow(hs, iK, n - 1) + PairClauses(hs[iK], hs[n - 1])
  }

  /** The clauses of the pairs whose first group is below `n`. */
  function PairPart(hs: seq<seq<int>>, n: nat): seq<Clause>
    requires Rectangular(hs) && n <= |hs|
  {
    if n == 0 then [] else PairPart(hs, n - 1) + PairRow(hs, n - 1, |hs|)
  }

  /** The codes of every variant of `k` under the numbering `m`. */
  function GroupCodes(bh: BitHash, m: map<Pair, int>, k: BitVec): (g: seq<seq<int>>)
    ensures |g| == VariantsCount(k) && Shaped(g, |bh.tables|)
  {
    seq(VariantsCount(k), o requires 0 <= o < VariantsCount(k) => Codes(bh, m, VariantKey(k, o)))
  }

  /** The codes of every variant of every group. */
  function KeyCodes(bh: BitHash, m: map<Pair, int>, ks: seq<BitVec>): (cs: seq<seq<seq<int>>>)
    ensures |cs| == |ks| && Cube(cs, |bh.tables|)
    ensures forall i | 0 <= i < |ks| :: |cs[i]| == VariantsCount(ks[i]) > 0
  {
    seq(|ks|, i requires 0 <= i < |ks| => GroupCodes(bh, m, ks[i]))
  }

  /** `g` holds the codes of the first |g| variants of `k` under `m`. */
  predicate GroupCodesOf(bh: BitHash, k: BitVec, m: map<Pair, int>, g: seq<seq<int>>)
  {
    forall o | 0 <= o < |g| :: g[o] == Codes(bh, m, VariantKey(k, o))
  }

  /** Every undecided position the first `n` variants of `k` read is
      numbered. */
  predicate GroupRead(bh: BitHash, k: BitVec, n: nat, m: map<Pair, int>)
  {
    forall o | 0 <= o < n :: NumbersReads(bh, VariantKey(k, o), |bh.tables|, m)
  }

  /** Every undecided position a variant of the first `n` groups reads is
      numbered. */
  predicate KeysRead(bh: BitHash, ks: seq<BitVec>, n: nat, m: map<Pair, int>)
    requires n <= |ks|
  {
    forall i | 0 <= i < n :: GroupRead(bh, ks[i], VariantsCount(ks[i]), m)
  }

  /** Every numbered position is an undecided lut entry. */
  predicate Unbound(bh: BitHash, m: map<Pair, int>)
  {
    forall p | p in m :: InRange(bh, p) && bh.tables[p.0].lut[p.1] == -1
  }

  /** The positions `calcHash` numbers afresh are undecided entries. */
  lemma UnboundStep(bh: BitHash, key: BitVec, m: map<Pair, int>, m': map<Pair, int>)
    requires Unbound(bh, m) && forall p | p in m' && p !in m :: ReadBelow(bh, key, |bh.tables|, p)
    ensures Unbound(bh, m')
  {
    forall p | p in m'
      ensures InRange(bh, p) && bh.tables[p.0].lut[p.1] == -1
    {
      if p !in m {
        assert ReadBelow(bh, key, |bh.tables|, p);
      }
    }
  }

  lemma GroupCodesFrame(bh: BitHash, k: BitVec, m: map<Pair, int>, m': map<Pair, int>, g: seq<seq<int>>)
    requires GroupCodesOf(bh, k, m, g) && GroupRead(bh, k, |g|, m) && Extends(m, m')
    ensures GroupCodesOf(bh, k, m', g) && GroupRead(bh, k, |g|, m')
  {
    forall o | 0 <= o < |g|
      ensures g[o] == Codes(bh, m', VariantKey(k, o))
    {
      CodesFrame(bh, m, m', VariantKey(k, o));
    }
  }

  /** The state of the key loop of `to_cnf` after |done| groups: `done`
      holds their codes and `hashes` their first variants' codes. */
  ghost predicate KeysDone(bh: BitHash, ks: seq<BitVec>, m: map<Pair, int>, done: seq<seq<seq<int>>>,
                           clauses: seq<Clause>, hashes: seq<seq<int>>)
  {
    && |done| <= |ks| && Numbering(m) && Unbound(bh, m) && KeysRead(bh, ks, |done|, m)
    && Cube(done, |bh.tables|) && |hashes| == |done|
    && (forall i | 0 <= i < |done| ::
          && |done[i]| == VariantsCount(ks[i]) && hashes[i] == done[i][0]
          && GroupCodesOf(bh, ks[i], m, done[i]))
    && clauses == VariantPart(done, |bh.tables|)
  }

  /** The state of the variant loop of group |done| after |g| variants. */
  ghost predicate GroupDone(bh: BitHash, ks: seq<BitVec>, m: map<Pair, int>, done: seq<seq<seq<int>>>,
                            g: seq<seq<int>>, clauses: seq<Clause>)
  {
    && |done| < |ks| && 1 <= |g| <= VariantsCount(ks[|done|]) && Numbering(m) && Unbound(bh, m)
    && KeysRead(bh, ks, |done|, m) && GroupRead(bh, ks[|done|], |g|, m)
    && Cube(done, |bh.tables|) && Shaped(g, |bh.tables|)
    && (forall i | 0 <= i < |done| ::
          && |done[i]| == VariantsCount(ks[i]) && GroupCodesOf(bh, ks[i], m, done[i]))
    && GroupCodesOf(bh, ks[|done|], m, g)
    && clauses == VariantPart(done, |bh.tables|) + GroupAgree(g, |bh.tables|)
  }

  /** The earlier groups' codes survive a numbering that grows. */
  lemma DoneFrame(bh: BitHash, ks: seq<BitVec>, m: map<Pair, int>, m': map<Pair, int>, done: seq<seq<seq<int>>>)
    requires |done| <= |ks| && KeysRead(bh, ks, |done|, m) && Extends(m, m')
    requires forall i | 0 <= i < |done| :: |done[i]| == VariantsCount(ks[i]) && GroupCodesOf(bh, ks[i], m, done[i])
    ensures KeysRead(bh, ks, |done|, m')
    ensures forall i | 0 <= i < |done| :: GroupCodesOf(bh, ks[i], m', done[i])
  {
    forall i | 0 <= i < |done|
      ensures GroupCodesOf(bh, ks[i], m', done[i]) && GroupRead(bh, ks[i], VariantsCount(ks[i]), m')
    {
      assert GroupRead(bh, ks[i], VariantsCount(ks[i]), m);
      GroupCodesFrame(bh, ks[i], m, m', done[i]);
    }
  }

  /** `calcHash` of a group's first variant opens its variant loop. */
  lemma GroupStart(bh: BitHash, ks: seq<BitVec>, m: map<Pair, int>, m': map<Pair, int>, done: seq<seq<seq<int>>>,
                   clauses: seq<Clause>, hashes: seq<seq<int>>, h0: seq<int>)
    requires |done| < |ks| && KeysDone(bh, ks, m, done, clauses, hashes)
    requires Numbering(m') && Extends(m, m') && Unbound(bh, m') && h0 == Codes(bh, m', VariantKey(ks[|done|], 0))
    requires NumbersReads(bh, VariantKey(ks[|done|], 0), |bh.tables|, m')
    ensures GroupDone(bh, ks, m', done, [h0], clauses)
  {
    DoneFrame(bh, ks, m, m', done);
    assert GroupAgree([h0], |bh.tables|) == [];
  }

  /** `calcHash` of the next variant and its equality clauses. */
  lemma GroupStep(bh: BitHash, ks: seq<BitVec>, m: map<Pair, int>, m': map<Pair, int>, done: seq<seq<seq<int>>>,
                  g: seq<seq<int>>, clauses: seq<Clause>, hx: seq<int>)
    requires GroupDone(bh, ks, m, done, g, clauses) && |g| < VariantsCount(ks[|done|])
    requires Numbering(m') && Extends(m, m') && Unbound(bh, m') && hx == Codes(bh, m', VariantKey(ks[|done|], |g|))
    requires NumbersReads(bh, VariantKey(ks[|done|], |g|), |bh.tables|, m')
    ensures GroupDone(bh, ks, m', done, g + [hx], clauses + AgreeBits(g[0], hx, |bh.tables|))
  {
    var k := ks[|done|];
    var w := |bh.tables|;
    DoneFrame(bh, ks, m, m', done);
    GroupCodesFrame(bh, k, m, m', g);
    GroupCodesSnoc(bh, k, m', g, hx);
    GroupAgreeSnoc(g, hx, w);
    AppendRegroup(VariantPart(done, w), GroupAgree(g, w), AgreeBits(g[0], hx, w), clauses);
    GroupDoneIntro(bh, ks, m', done, g + [hx], clauses + AgreeBits(g[0], hx, w));
  }

  lemma GroupCodesSnoc(bh: BitHash, k: BitVec, m: map<Pair, int>, g: seq<seq<int>>, hx: seq<int>)
    requires forall o | 0 <= o < |g| :: g[o] == Codes(bh, m, VariantKey(k, o))
    requires forall o | 0 <= o < |g| :: NumbersReads(bh, VariantKey(k, o), |bh.tables|, m)
    requires hx == Codes(bh, m, VariantKey(k, |g|)) && NumbersReads(bh, VariantKey(k, |g|), |bh.tables|, m)
    ensures forall o | 0 <= o < |g| + 1 :: (g + [hx])[o] == Codes(bh, m, VariantKey(k, o))
    ensures forall o | 0 <= o < |g| + 1 :: NumbersReads(bh, VariantKey(k, o), |bh.tables|, m)
  {
    var g' := g + [hx];
    forall o | 0 <= o < |g'|
      ensures g'[o] == Codes(bh, m, VariantKey(k, o))
    {
      if o < |g| {
        assert g'[o] == g[o];
      } else {
        assert o == |g| && g'[o] == hx;
      }
    }
  }

  /** Appending to a concatenation regroups it. */
  lemma AppendRegroup(a: seq<Clause>, b: seq<Clause>, c: seq<Clause>, ab: seq<Clause>)
    requires ab == a + b
    ensures ab + c == a + (b + c)
  {
  }

  lemma GroupAgreeSnoc(g: seq<seq<int>>, x: seq<int>, w: nat)
    requires |g| > 0 && Shaped(g, w) && |x| == w
    ensures Shaped(g + [x], w) && GroupAgree(g + [x], w) == GroupAgree(g, w) + AgreeBits(g[0], x, w)
  {
    var g' := g + [x];
    assert Shaped(g', w) by {
      forall o | 0 <= o < |g'| ensures |g'[o]| == w {
        if o < |g| {
          assert g'[o] == g[o];
        }
      }
    }
    assert g'[..|g'| - 1] == g && g'[0] == g[0] && g'[|g'| - 1] == x;
  }

  lemma GroupDoneIntro(bh: BitHash, ks: seq<BitVec>, m: map<Pair, int>, done: seq<seq<seq<int>>>,
                       g: seq<seq<int>>, clauses: seq<Clause>)
    requires |done| < |ks| && 1 <= |g| <= VariantsCount(ks[|done|]) && Numbering(m) && Unbound(bh, m)
    requires KeysRead(bh, ks, |done|, m)
    requires forall o | 0 <= o < |g| :: NumbersReads(bh, VariantKey(ks[|done|], o), |bh.tables|, m)
    requires Cube(done, |bh.tables|) && Shaped(g, |bh.tables|)
    requires forall i | 0 <= i < |done| :: |done[i]| == VariantsCount(ks[i]) && GroupCodesOf(bh, ks[i], m, done[i])
    requires forall o | 0 <= o < |g| :: g[o] == Codes(bh, m, VariantKey(ks[|done|], o))
    requires clauses == VariantPart(done, |bh.tables|) + GroupAgree(g, |bh.tables|)
    ensures GroupDone(bh, ks, m, done, g, clauses)
  {
  }

  /** The last variant closes the group. */
  lemma GroupEnd(bh: BitHash, ks: seq<BitVec>, m: map<Pair, int>, done: seq<seq<seq<int>>>,
                 g: seq<seq<int>>, clauses: seq<Clause>, hashes: seq<seq<int>>)
    requires GroupDone(bh, ks, m, done, g, clauses) && |g| == VariantsCount(ks[|done|])
    requires hashes == Firsts(done)
    ensures KeysDone(bh, ks, m, done + [g], clauses, hashes + [g[0]])
  {
    var done' := done + [g];
    var hashes' := hashes + [g[0]];
    var w := |bh.tables|;
    assert Cube(done', w) by {
      forall i | 0 <= i < |done'| ensures Shaped(done'[i], w) {
        if i < |done| {
          assert done'[i] == done[i];
        }
      }
    }
    VariantPartSnoc(done, g, w);
    forall i | 0 <= i < |done'|
      ensures |done'[i]| == VariantsCount(ks[i]) && hashes'[i] == done'[i][0]
      ensures GroupCodesOf(bh, ks[i], m, done'[i]) && GroupRead(bh, ks[i], VariantsCount(ks[i]), m)
    {
      if i < |done| {
        assert done'[i] == done[i] && hashes'[i] == hashes[i];
      } else {
        assert i == |done| && done'[i] == g && hashes'[i] == g[0];
      }
    }
    KeysDoneIntro(bh, ks, m, done', clauses, hashes');
  }

  lemma VariantPartSnoc(done: seq<seq<seq<int>>>, g: seq<seq<int>>, w: nat)
    requires Cube(done + [g], w)
    ensures Cube(done, w) && Shaped(g, w)
    ensures VariantPart(done + [g], w) == VariantPart(done, w) + GroupAgree(g, w)
  {
    var done' := done + [g];
    forall i | 0 <= i < |done| ensures Shaped(done[i], w) {
      assert done'[i] == done[i];
    }
    assert done'[|done|] == g;
    assert done'[..|done'| - 1] == done;
  }

  lemma KeysDoneIntro(bh: BitHash, ks: seq<BitVec>, m: map<Pair, int>, done: seq<seq<seq<int>>>,
                      clauses: seq<Clause>, hashes: seq<seq<int>>)
    requires |done| <= |ks| && Numbering(m) && Unbound(bh, m)
    requires forall i | 0 <= i < |done| :: GroupRead(bh, ks[i], VariantsCount(ks[i]), m)
    requires Cube(done, |bh.tables|) && |hashes| == |done|
    requires forall i | 0 <= i < |done| ::
      && |done[i]| == VariantsCount(ks[i]) && hashes[i] == done[i][0]
      && GroupCodesOf(bh, ks[i], m, done[i])
    requires clauses == VariantPart(done, |bh.tables|)
    ensures KeysDone(bh, ks, m, done, clauses, hashes)
  {
  }

  /** The key loop ends with the codes of every group. */
  lemma KeysEnd(bh: BitHash, ks: seq<BitVec>, m: map<Pair, int>, done: seq<seq<seq<int>>>,
                clauses: seq<Clause>, hashes: seq<seq<int>>)
    requires KeysDone(bh, ks, m, done, clauses, hashes) && |done| == |ks|
    ensures done == KeyCodes(bh, m, ks) && Cube(done, |bh.tables|) && hashes == Firsts(done)
    ensures Rectangular(hashes) && |hashes| == |ks| && clauses == VariantPart(done, |bh.tables|)
  {
    var cs := KeyCodes(bh, m, ks);
    forall i | 0 <= i < |ks|
      ensures done[i] == cs[i]
    {
      assert GroupCodesOf(bh, ks[i], m, done[i]);
    }
  }

  /** The clauses of `to_cnf` with the folded equality clauses, once the
      keys' positions carry the numbering `m`: the groups' equality
      clauses, then the pairs'. */
  function ToCnfClauses(bh: BitHash, m: map<Pair, int>, ks: seq<BitVec>): seq<Clause>
    requires |ks| > 0
  {
    var cs := KeyCodes(bh, m, ks);
    FirstsRectangular(cs, |bh.tables|);
    VariantPart(cs, |bh.tables|) + PairPart(Firsts(cs), |ks| - 1)
  }

  /** The clauses `to_cnf` as written emits under the numbering `m`. */
  function ToCnfClausesAsWritten(bh: BitHash, m: map<Pair, int>, ks: seq<BitVec>): seq<Clause>
    requires |ks| > 0
  {
    var cs := KeyCodes(bh, m, ks);
    FirstsRectangular(cs, |bh.tables|);
    VariantPartAsWritten(cs, |bh.tables|) + PairPart(Firsts(cs), |ks| - 1)
  }

  /** Every variant of `k` reads only undecided entries under `m`. */
  predicate AllUnknown(bh: BitHash, m: map<Pair, int>, k: BitVec)
  {
    forall o, b | 0 <= o < VariantsCount(k) && 0 <= b < |bh.tables| ::
      Codes(bh, m, VariantKey(k, o))[b] > 0
  }

  /** When every key is concrete, or every key with don't cares reads only
      undecided entries, the clauses `to_cnf` writes are those of the
      folded encoding. */
  lemma ToCnfAsWrittenCoincides(bh: BitHash, m: map<Pair, int>, ks: seq<BitVec>)
    requires |ks| > 0
    requires forall i | 0 <= i < |ks| :: IsConcrete(ks[i]) || AllUnknown(bh, m, ks[i])
    ensures ToCnfClausesAsWritten(bh, m, ks) == ToCnfClauses(bh, m, ks)
  {
    var cs := KeyCodes(bh, m, ks);
    var w := |bh.tables|;
    forall i, o, b | 0 <= i < |cs| && 1 < |cs[i]| && 0 <= o < |cs[i]| && 0 <= b < w
      ensures cs[i][o][b] > 0
    {
      assert cs[i] == GroupCodes(bh, m, ks[i]);
      assert cs[i][o] == Codes(bh, m, VariantKey(ks[i], o));
    }
    VariantPartAsWrittenUnknown(cs, w);
  }

  lemma FirstsRectangular(cs: seq<seq<seq<int>>>, w: nat)
    requires Cube(cs, w) && forall i | 0 <= i < |cs| :: |cs[i]| > 0
    ensures Rectangular(Firsts(cs)) && forall i | 0 <= i < |cs| :: |Firsts(cs)[i]| == w
  {
    var hs := Firsts(cs);
    forall i | 0 <= i < |cs| ensures |hs[i]| == w {
      assert Shaped(cs[i], w) && hs[i] == cs[i][0];
    }
  }

  /** `to_cnf`: number the undecided entries the keys read, in first-use
      order, ask every variant of a group to hash like its first variant,
      and every two groups to hash apart. The variant equality clauses are
      the folded ones of `AgreeClauses`; they are the clauses `to_cnf`
      writes whenever every key is concrete or reads only undecided
      entries. With no keys the pair loop's bound `keys.size()-1` wraps and
      the loop never ends, so at least one key is required. */
  method ToCnf(bh: BitHash, ks: seq<BitVec>) returns (cnf: CnfProblem)
    requires BitHashes.WellFormed(bh) && |ks| > 0
    ensures Numbering(cnf.lutToVariable) && Unbound(bh, cnf.lutToVariable)
    ensures KeysRead(bh, ks, |ks|, cnf.lutToVariable)
    ensures cnf.clauses == ToCnfClauses(bh, cnf.lutToVariable, ks)
    ensures (forall i | 0 <= i < |ks| :: IsConcrete(ks[i])) ==>
      cnf.clauses == ToCnfClausesAsWritten(bh, cnf.lutToVariable, ks)
  {
    var m: map<Pair, int> := map[];
    var clauses: seq<Clause> := [];
    var hashes: seq<seq<int>> := [];
    ghost var done: seq<seq<seq<int>>> := [];
    for iK := 0 to |ks|
      invariant |done| == iK && KeysDone(bh, ks, m, done, clauses, hashes)
      invariant hashes == Firsts(done)
    {
      var k := ks[iK];
      var h0, m1 := KeyHash(bh, VariantKey(k, 0), m);
      GroupStart(bh, ks, m, m1, done, clauses, hashes, h0);
      m := m1;
      ghost var g := [h0];
      var o := 1;
      while o < VariantsCount(k)
        invariant o == |g| && GroupDone(bh, ks, m, done, g, clauses) && g[0] == h0
        decreases VariantsCount(k) - o
      {
        var hx, m2 := KeyHash(bh, VariantKey(k, o), m);
        var eq := AgreeLoop(h0, hx, |bh.tables|);
        GroupStep(bh, ks, m, m2, done, g, clauses, hx);
        m, clauses, g := m2, clauses + eq, g + [hx];
        o := o + 1;
      }
      GroupEnd(bh, ks, m, done, g, clauses, hashes);
      hashes, done := hashes + [h0], done + [g];
    }
    KeysEnd(bh, ks, m, done, clauses, hashes);
    var pairs := PairsLoop(hashes);
    cnf := CnfProblem(m, clauses + pairs);
    if forall i | 0 <= i < |ks| :: IsConcrete(ks[i]) {
      ToCnfAsWrittenCoincides(bh, m, ks);
    }
  }

  /** The pair loops of `to_cnf`: every group against every later group. */
  method PairsLoop(hashes: seq<seq<int>>) returns (clauses: seq<Clause>)
    requires Rectangular(hashes) && |hashes| > 0
    ensures clauses == PairPart(hashes, |hashes| - 1)
  {
    clauses := [];
    for iK := 0 to |hashes| - 1
      invariant clauses == PairPart(hashes, iK)
    {
      for jK := iK + 1 to |hashes|
        invariant clauses == PairPart(hashes, iK) + PairRow(hashes, iK, jK)
      {
        var acc := PairLoop(hashes[iK], hashes[jK]);
        AppendRegroup(PairPart(hashes, iK), PairRow(hashes, iK, jK), acc, clauses);
        clauses := clauses + acc;
      }
    }
  }

  /** `calcHash` as `to_cnf` uses it: the key's codes, and a numbering
      grown by undecided positions the key reads that numbers all of
      them. */
  method KeyHash(bh: BitHash, key: BitVec, m: map<Pair, int>) returns (codes: seq<int>, m': map<Pair, int>)
    requires BitHashes.WellFormed(bh) && Numbering(m) && Unbound(bh, m)
    ensures codes == Codes(bh, m', key) && Numbering(m') && Extends(m, m') && Unbound(bh, m')
    ensures NumbersReads(bh, key, |bh.tables|, m')
  {
    codes, m' := CalcHash(bh, key, m);
    HashedParts(bh, key, m, m', codes);
    UnboundStep(bh, key, m, m');
  }
}
