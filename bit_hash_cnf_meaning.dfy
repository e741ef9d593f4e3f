/** What a solution of the `to_cnf` clauses, with the folded equality
    clauses, means: substituting any
    Boolean assignment of the numbered variables into the hash decides
    every variant of every key group, and the substituted hash solves the
    key set exactly when the assignment satisfies every clause. */
module CnfMeaning {
  import opened Wrappers
  import opened Arith
  import opened BitVectors
  import opened BitHashes
  import opened Cnf
  import opened CnfEncoding

  /** Every numbered position's variable has the value 0 or 1, as a model
      that `minisat_solve` returns for a satisfiable problem gives. */
  predicate Boolean(sol: Solution, m: map<Pair, int>)
  {
    forall p | p in m :: m[p] in sol && (sol[m[p]] == 0 || sol[m[p]] == 1)
  }

  /** The truth of each code of a hash. */
  function Truths(sol: Solution, h: seq<int>): (b: seq<bool>)
    ensures |b| == |h|
  {
    seq(|h|, t requires 0 <= t < |h| => CodeValue(sol, h[t]))
  }

  /** Two code vectors stand for the same hash. */
  predicate SameTruth(sol: Solution, a: seq<int>, b: seq<int>)
  {
    forall t | 0 <= t < |a| && t < |b| :: CodeValue(sol, a[t]) == CodeValue(sol, b[t])
  }

  lemma SameTruthIff(sol: Solution, a: seq<int>, b: seq<int>)
    requires |a| == |b|
    ensures SameTruth(sol, a, b) <==> Truths(sol, a) == Truths(sol, b)
    ensures !SameTruth(sol, a, b) <==> DiffersFrom(sol, a, b, 0)
  {
    if Truths(sol, a) == Truths(sol, b) {
      forall t | 0 <= t < |a| ensures CodeValue(sol, a[t]) == CodeValue(sol, b[t]) {
        assert Truths(sol, a)[t] == Truths(sol, b)[t];
      }
    }
  }

  /** Every code of a numbering is assigned by a Boolean solution. */
  lemma CodeAssigned(bh: BitHash, m: map<Pair, int>, sol: Solution, key: BitVec, t: nat)
    requires t < |bh.tables| && Numbering(m) && Boolean(sol, m)
    ensures Assigned(sol, Code(bh, m, key, t))
  {
  }

  lemma CodesAssigned(bh: BitHash, m: map<Pair, int>, sol: Solution, key: BitVec)
    requires Numbering(m) && Boolean(sol, m)
    ensures forall t | 0 <= t < |bh.tables| :: Assigned(sol, Codes(bh, m, key)[t])
  {
    CodesAt(bh, m, key);
    forall t | 0 <= t < |bh.tables| ensures Assigned(sol, Codes(bh, m, key)[t]) {
      CodeAssigned(bh, m, sol, key, t);
    }
  }

  // ---------------------------------------------------------------------
  // The substituted hash

  /** Substituting a Boolean solution for numbered positions that are all
      undecided entries succeeds and keeps the hash well-formed. */
  lemma SubstituteWellFormed(bh: BitHash, cnf: CnfProblem, sol: Solution)
    requires BitHashes.WellFormed(bh) && Unbound(bh, cnf.lutToVariable) && Boolean(sol, cnf.lutToVariable)
    ensures Substitute(bh, cnf, sol).Ok? && BitHashes.WellFormed(Substitute(bh, cnf, sol).value)
  {
    var m := cnf.lutToVariable;
    var r := Substitute(bh, cnf, sol);
    assert r.Ok?;
    forall i | 0 <= i < |bh.tables|
      ensures TableWellFormed(r.value.tables[i])
    {
      var lut := r.value.tables[i].lut;
      forall a | 0 <= a < |lut| ensures IsTrit(lut[a]) {
        assert TableWellFormed(bh.tables[i]);
        if lut[a] != bh.tables[i].lut[a] {
          assert (i, a) in m && m[(i, a)] in sol;
        }
      }
    }
  }

  /** Table `t` of the substituted hash reads, for a concrete key whose
      undecided positions are numbered, the truth of the key's code. */
  lemma SubstitutedBit(bh: BitHash, cnf: CnfProblem, sol: Solution, v: BitVec, t: nat)
    requires BitHashes.WellFormed(bh) && Numbering(cnf.lutToVariable) && Unbound(bh, cnf.lutToVariable)
    requires Boolean(sol, cnf.lutToVariable)
    requires IsConcrete(v) && t < |bh.tables| && NumbersReads(bh, v, |bh.tables|, cnf.lutToVariable)
    ensures Substitute(bh, cnf, sol).Ok? && BitHashes.WellFormed(Substitute(bh, cnf, sol).value)
    ensures var t' := Substitute(bh, cnf, sol).value.tables[t];
      Lookup(t', v).Ok? && (Lookup(t', v).value == 1 <==> CodeValue(sol, Code(bh, cnf.lutToVariable, v, t)))
      && Lookup(t', v).value != -1
  {
    SubstituteWellFormed(bh, cnf, sol);
    var m := cnf.lutToVariable;
    var t' := Substitute(bh, cnf, sol).value.tables[t];
    var a := Addr(bh, t, v);
    AddrDefinition(bh, t, v);
    assert KeyAddress(t', v) == KeyAddress(bh.tables[t], v);
    assert TableWellFormed(bh.tables[t]);
    var e := bh.tables[t].lut[a];
    assert Entry(bh, t, v) == e;
    if e == -1 {
      assert (t, a) in m;
    } else {
      assert (t, a) !in m;
      assert t'.lut[a] == e;
    }
  }

  /** The substituted hash of a concrete key whose undecided positions are
      numbered is the number whose bits are the truths of its codes. */
  lemma SubstitutedEval(bh: BitHash, cnf: CnfProblem, sol: Solution, v: BitVec)
    requires BitHashes.WellFormed(bh) && Numbering(cnf.lutToVariable) && Unbound(bh, cnf.lutToVariable)
    requires Boolean(sol, cnf.lutToVariable)
    requires IsConcrete(v) && NumbersReads(bh, v, |bh.tables|, cnf.lutToVariable)
    ensures Substitute(bh, cnf, sol).Ok? && BitHashes.WellFormed(Substitute(bh, cnf, sol).value)
    ensures var bh' := Substitute(bh, cnf, sol).value;
      Decided(bh', v) && Eval(bh', v) == Ok(BitsValue(Truths(sol, Codes(bh, cnf.lutToVariable, v))))
  {
    SubstituteWellFormed(bh, cnf, sol);
    var m := cnf.lutToVariable;
    var bh' := Substitute(bh, cnf, sol).value;
    var b := Truths(sol, Codes(bh, m, v));
    CodesAt(bh, m, v);
    forall t | 0 <= t < |bh.tables|
      ensures Lookup(bh'.tables[t], v).Ok? && Lookup(bh'.tables[t], v).value != -1
      ensures (Lookup(bh'.tables[t], v).value == 1) == b[t]
    {
      SubstitutedBit(bh, cnf, sol, v, t);
    }
    assert OutputBits(bh', v) == b;
  }

  /** Two such keys hash alike in the substituted hash exactly when their
      codes have the same truths. */
  lemma SubstitutedSame(bh: BitHash, cnf: CnfProblem, sol: Solution, v1: BitVec, v2: BitVec)
    requires BitHashes.WellFormed(bh) && Numbering(cnf.lutToVariable) && Unbound(bh, cnf.lutToVariable)
    requires Boolean(sol, cnf.lutToVariable)
    requires IsConcrete(v1) && NumbersReads(bh, v1, |bh.tables|, cnf.lutToVariable)
    requires IsConcrete(v2) && NumbersReads(bh, v2, |bh.tables|, cnf.lutToVariable)
    ensures Substitute(bh, cnf, sol).Ok? && BitHashes.WellFormed(Substitute(bh, cnf, sol).value)
    ensures var bh' := Substitute(bh, cnf, sol).value;
      Decided(bh', v1) && Decided(bh', v2) &&
      (Eval(bh', v1).value == Eval(bh', v2).value <==>
       SameTruth(sol, Codes(bh, cnf.lutToVariable, v1), Codes(bh, cnf.lutToVariable, v2)))
  {
    var m := cnf.lutToVariable;
    SubstitutedEval(bh, cnf, sol, v1);
    SubstitutedEval(bh, cnf, sol, v2);
    SameTruthIff(sol, Codes(bh, m, v1), Codes(bh, m, v2));
    if BitsValue(Truths(sol, Codes(bh, m, v1))) == BitsValue(Truths(sol, Codes(bh, m, v2))) {
      BitsValueInjective(Truths(sol, Codes(bh, m, v1)), Truths(sol, Codes(bh, m, v2)));
    }
  }

  // ---------------------------------------------------------------------
  // What the clauses say

  /** Every code of every code vector is assigned. */
  predicate GroupAssigned(sol: Solution, g: seq<seq<int>>)
  {
    forall o, t | 0 <= o < |g| && 0 <= t < |g[o]| :: Assigned(sol, g[o][t])
  }

  /** A group's equality clauses hold exactly when every variant's codes
      have the truths of the first variant's. */
  lemma {:induction false} GroupAgreeMeaning(sol: Solution, g: seq<seq<int>>, w: nat)
    requires Shaped(g, w) && GroupAssigned(sol, g)
    ensures AllTrue(sol, GroupAgree(g, w)) <==> AgreeWithFirst(sol, g)
  {
    if |g| > 1 {
      var g' := g[..|g| - 1];
      var x := g[|g| - 1];
      assert forall o | 0 <= o < |g'| :: g'[o] == g[o];
      GroupAgreeMeaning(sol, g', w);
      assert GroupAgree(g, w) == GroupAgree(g', w) + AgreeBits(g[0], x, w);
      AgreeBitsMeaning(sol, g[0], x, w);
      AllTrueAppend(sol, GroupAgree(g', w), AgreeBits(g[0], x, w));
      AgreeWithFirstSnoc(sol, g, w);
    }
  }

  /** Every variant after the first has the truths of the first. */
  predicate AgreeWithFirst(sol: Solution, g: seq<seq<int>>)
  {
    forall o | 0 < o < |g| :: SameTruth(sol, g[0], g[o])
  }

  lemma AgreeWithFirstSnoc(sol: Solution, g: seq<seq<int>>, w: nat)
    requires |g| > 1 && Shaped(g, w)
    ensures Shaped(g[..|g| - 1], w)
    ensures AgreeWithFirst(sol, g) <==>
      AgreeWithFirst(sol, g[..|g| - 1]) &&
      forall t | 0 <= t < w :: CodeValue(sol, g[0][t]) == CodeValue(sol, g[|g| - 1][t])
  {
    var g' := g[..|g| - 1];
    assert forall o | 0 <= o < |g'| :: g'[o] == g[o];
    if AgreeWithFirst(sol, g') && forall t | 0 <= t < w :: CodeValue(sol, g[0][t]) == CodeValue(sol, g[|g| - 1][t]) {
      forall o | 0 < o < |g| ensures SameTruth(sol, g[0], g[o]) {
        if o < |g'| {
          assert SameTruth(sol, g'[0], g'[o]);
        }
      }
    }
    if AgreeWithFirst(sol, g) {
      assert SameTruth(sol, g[0], g[|g| - 1]);
      forall o | 0 < o < |g'| ensures SameTruth(sol, g'[0], g'[o]) {
        assert SameTruth(sol, g[0], g[o]);
      }
    }
  }

  predicate CubeAssigned(sol: Solution, cs: seq<seq<seq<int>>>)
  {
    forall i | 0 <= i < |cs| :: GroupAssigned(sol, cs[i])
  }

  /** The equality clauses of all groups hold exactly when each group's
      variants agree with its first. */
  lemma {:induction false} VariantPartMeaning(sol: Solution, cs: seq<seq<seq<int>>>, w: nat)
    requires Cube(cs, w) && CubeAssigned(sol, cs)
    ensures AllTrue(sol, VariantPart(cs, w)) <==>
      forall i | 0 <= i < |cs| :: AgreeWithFirst(sol, cs[i])
  {
    if |cs| > 0 {
      var cs' := cs[..|cs| - 1];
      var g := cs[|cs| - 1];
      assert forall i | 0 <= i < |cs'| :: cs'[i] == cs[i];
      VariantPartMeaning(sol, cs', w);
      GroupAgreeMeaning(sol, g, w);
      assert VariantPart(cs, w) == VariantPart(cs', w) + GroupAgree(g, w);
      AllTrueAppend(sol, VariantPart(cs', w), GroupAgree(g, w));
    }
  }

  /** Every code vector has `w` codes, each assigned. */
  predicate RowsAssigned(sol: Solution, hs: seq<seq<int>>, w: nat)
  {
    forall i | 0 <= i < |hs| :: |hs[i]| == w && AllAssigned(sol, hs[i], 0)
  }

  /** The pair clauses of row `iK` up to `n` hold exactly when group `iK`
      hashes apart from each later group below `n`. */
  lemma {:induction false} PairRowMeaning(sol: Solution, hs: seq<seq<int>>, w: nat, iK: nat, n: nat)
    requires RowsAssigned(sol, hs, w) && Rectangular(hs) && iK < |hs| && n <= |hs|
    ensures AllTrue(sol, PairRow(hs, iK, n)) <==> forall j | iK < j < n :: !SameTruth(sol, hs[iK], hs[j])
  {
    if n > iK + 1 {
      PairRowMeaning(sol, hs, w, iK, n - 1);
      PairClausesMeaning(sol, hs[iK], hs[n - 1]);
      SameTruthIff(sol, hs[iK], hs[n - 1]);
      AllTrueAppend(sol, PairRow(hs, iK, n - 1), PairClauses(hs[iK], hs[n - 1]));
    }
  }

  /** The pair clauses of the rows below `n` hold exactly when each of
      those groups hashes apart from every later group. */
  lemma {:induction false} PairPartMeaning(sol: Solution, hs: seq<seq<int>>, w: nat, n: nat)
    requires RowsAssigned(sol, hs, w) && Rectangular(hs) && n <= |hs|
    ensures AllTrue(sol, PairPart(hs, n)) <==>
      forall i, j | 0 <= i < n && i < j < |hs| :: !SameTruth(sol, hs[i], hs[j])
  {
    forall r | 0 <= r < n
      ensures RowMeaning(sol, hs, r)
    {
      PairRowMeaning(sol, hs, w, r, |hs|);
    }
    PairPartFromRows(sol, hs, n);
  }

  /** Row `r`'s pair clauses hold exactly when group `r` hashes apart from
      every later group. */
  predicate RowMeaning(sol: Solution, hs: seq<seq<int>>, r: nat)
    requires Rectangular(hs) && r < |hs|
  {
    AllTrue(sol, PairRow(hs, r, |hs|)) <==> forall j | r < j < |hs| :: !SameTruth(sol, hs[r], hs[j])
  }

  lemma {:induction false} PairPartFromRows(sol: Solution, hs: seq<seq<int>>, n: nat)
    requires Rectangular(hs) && n <= |hs|
    requires forall r | 0 <= r < n :: RowMeaning(sol, hs, r)
    ensures AllTrue(sol, PairPart(hs, n)) <==>
      forall i, j | 0 <= i < n && i < j < |hs| :: !SameTruth(sol, hs[i], hs[j])
  {
    if n > 0 {
      PairPartFromRows(sol, hs, n - 1);
      assert RowMeaning(sol, hs, n - 1);
      PairPartStep(sol, hs, n);
    }
  }

  /** One more row of pair clauses means one more group kept apart from the
      later ones. */
  lemma PairPartStep(sol: Solution, hs: seq<seq<int>>, n: nat)
    requires Rectangular(hs) && 0 < n <= |hs|
    requires AllTrue(sol, PairPart(hs, n - 1)) <==>
      forall i, j | 0 <= i < n - 1 && i < j < |hs| :: !SameTruth(sol, hs[i], hs[j])
    requires AllTrue(sol, PairRow(hs, n - 1, |hs|)) <==> forall j | n - 1 < j < |hs| :: !SameTruth(sol, hs[n - 1], hs[j])
    ensures AllTrue(sol, PairPart(hs, n)) <==>
      forall i, j | 0 <= i < n && i < j < |hs| :: !SameTruth(sol, hs[i], hs[j])
  {
    AllTrueAppend(sol, PairPart(hs, n - 1), PairRow(hs, n - 1, |hs|));
    ApartSplit(sol, hs, n);
  }

  /** The groups below `n` hash apart from every later group exactly when
      those below `n - 1` do and group `n - 1` does. */
  lemma ApartSplit(sol: Solution, hs: seq<seq<int>>, n: nat)
    requires 0 < n <= |hs|
    ensures (forall i, j | 0 <= i < n && i < j < |hs| :: !SameTruth(sol, hs[i], hs[j])) <==>
      (forall i, j | 0 <= i < n - 1 && i < j < |hs| :: !SameTruth(sol, hs[i], hs[j])) &&
      (forall j | n - 1 < j < |hs| :: !SameTruth(sol, hs[n - 1], hs[j]))
  {
    if (forall i, j | 0 <= i < n - 1 && i < j < |hs| :: !SameTruth(sol, hs[i], hs[j])) &&
       (forall j | n - 1 < j < |hs| :: !SameTruth(sol, hs[n - 1], hs[j])) {
      forall i, j | 0 <= i < n && i < j < |hs| ensures !SameTruth(sol, hs[i], hs[j]) {
        if i == n - 1 {
          assert !SameTruth(sol, hs[n - 1], hs[j]);
        }
      }
    }
  }

  /** All of the folded clauses hold exactly when every group's variants
      agree with its first and the first variants are pairwise apart. */
  lemma ClausesMeaning(bh: BitHash, m: map<Pair, int>, ks: seq<BitVec>, sol: Solution)
    requires |ks| > 0 && Numbering(m) && Boolean(sol, m)
    ensures var cs := KeyCodes(bh, m, ks);
      AllTrue(sol, ToCnfClauses(bh, m, ks)) <==>
        (forall i | 0 <= i < |ks| :: AgreeWithFirst(sol, cs[i])) &&
        (forall i, j | 0 <= i < j < |ks| :: !SameTruth(sol, cs[i][0], cs[j][0]))
  {
    var cs := KeyCodes(bh, m, ks);
    var w := |bh.tables|;
    var hs := Firsts(cs);
    FirstsRectangular(cs, w);
    var vp := VariantPart(cs, w);
    var pp := PairPart(hs, |ks| - 1);
    assert ToCnfClauses(bh, m, ks) == vp + pp;
    AllTrueAppend(sol, vp, pp);
    VariantsMeaning(bh, m, ks, sol);
    KeyCodesAssigned(bh, m, ks, sol);
    PairsMeaning(sol, cs, w, |ks|);
  }

  /** The variant clauses of `to_cnf` hold exactly when every group's
      variants agree with its first. */
  lemma VariantsMeaning(bh: BitHash, m: map<Pair, int>, ks: seq<BitVec>, sol: Solution)
    requires Numbering(m) && Boolean(sol, m)
    ensures var cs := KeyCodes(bh, m, ks);
      AllTrue(sol, VariantPart(cs, |bh.tables|)) <==> forall i | 0 <= i < |ks| :: AgreeWithFirst(sol, cs[i])
  {
    KeyCodesAssigned(bh, m, ks, sol);
    VariantPartMeaning(sol, KeyCodes(bh, m, ks), |bh.tables|);
  }

  /** The pair clauses of `to_cnf` hold exactly when the first variants of
      every two groups hash apart. */
  lemma PairsMeaning(sol: Solution, cs: seq<seq<seq<int>>>, w: nat, n: nat)
    requires n == |cs| > 0 && forall i | 0 <= i < |cs| :: |cs[i]| > 0
    requires Rectangular(Firsts(cs)) && RowsAssigned(sol, Firsts(cs), w)
    ensures AllTrue(sol, PairPart(Firsts(cs), n - 1)) <==>
      forall i, j | 0 <= i < j < n :: !SameTruth(sol, cs[i][0], cs[j][0])
  {
    PairPartMeaning(sol, Firsts(cs), w, n - 1);
    FirstsApart(sol, cs, n);
  }

  lemma KeyCodesAssigned(bh: BitHash, m: map<Pair, int>, ks: seq<BitVec>, sol: Solution)
    requires Numbering(m) && Boolean(sol, m)
    ensures CubeAssigned(sol, KeyCodes(bh, m, ks))
    ensures forall i | 0 <= i < |ks| :: AllAssigned(sol, KeyCodes(bh, m, ks)[i][0], 0)
    ensures RowsAssigned(sol, Firsts(KeyCodes(bh, m, ks)), |bh.tables|)
  {
    var cs := KeyCodes(bh, m, ks);
    forall i | 0 <= i < |cs| ensures GroupAssigned(sol, cs[i]) {
      forall o | 0 <= o < |cs[i]| ensures AllAssigned(sol, cs[i][o], 0) {
        assert cs[i][o] == Codes(bh, m, VariantKey(ks[i], o));
        CodesAssigned(bh, m, sol, VariantKey(ks[i], o));
      }
    }
    var hs := Firsts(cs);
    FirstsRectangular(cs, |bh.tables|);
    forall i | 0 <= i < |hs| ensures |hs[i]| == |bh.tables| && AllAssigned(sol, hs[i], 0) {
      assert hs[i] == cs[i][0];
      assert GroupAssigned(sol, cs[i]);
    }
  }

  /** The first variants of the groups are pairwise apart: the pairs the
      pair loops visit, whose first group is not the last, are all pairs. */
  lemma FirstsApart(sol: Solution, cs: seq<seq<seq<int>>>, n: nat)
    requires n == |cs| > 0 && forall i | 0 <= i < |cs| :: |cs[i]| > 0
    ensures var hs := Firsts(cs);
      (forall i, j | 0 <= i < n - 1 && i < j < |hs| :: !SameTruth(sol, hs[i], hs[j])) <==>
      (forall i, j | 0 <= i < j < n :: !SameTruth(sol, cs[i][0], cs[j][0]))
  {
    var hs := Firsts(cs);
    if forall i, j | 0 <= i < n - 1 && i < j < |hs| :: !SameTruth(sol, hs[i], hs[j]) {
      forall i, j | 0 <= i < j < n ensures !SameTruth(sol, cs[i][0], cs[j][0]) {
        assert hs[i] == cs[i][0] && hs[j] == cs[j][0];
        assert !SameTruth(sol, hs[i], hs[j]);
      }
    }
    if forall i, j | 0 <= i < j < n :: !SameTruth(sol, cs[i][0], cs[j][0]) {
      forall i, j | 0 <= i < n - 1 && i < j < |hs| ensures !SameTruth(sol, hs[i], hs[j]) {
        assert hs[i] == cs[i][0] && hs[j] == cs[j][0];
        assert !SameTruth(sol, cs[i][0], cs[j][0]);
      }
    }
  }

  // ---------------------------------------------------------------------
  // The clauses and the substituted hash

  /** Two code vectors of one length give one hash exactly when they have
      the same truths. */
  lemma TruthValueSame(sol: Solution, a: seq<int>, b: seq<int>)
    requires |a| == |b|
    ensures BitsValue(Truths(sol, a)) == BitsValue(Truths(sol, b)) <==> SameTruth(sol, a, b)
  {
    SameTruthIff(sol, a, b);
    if BitsValue(Truths(sol, a)) == BitsValue(Truths(sol, b)) {
      BitsValueInjective(Truths(sol, a), Truths(sol, b));
    }
  }

  /** The substituted hash decides every variant of every group, and the
      hash of variant `o` of group `i` is the value of its codes' truths. */
  lemma SubstitutedHashes(bh: BitHash, cnf: CnfProblem, sol: Solution, ks: seq<BitVec>)
    requires BitHashes.WellFormed(bh) && Numbering(cnf.lutToVariable) && Unbound(bh, cnf.lutToVariable)
    requires Boolean(sol, cnf.lutToVariable) && KeysRead(bh, ks, |ks|, cnf.lutToVariable)
    ensures Substitute(bh, cnf, sol).Ok? && BitHashes.WellFormed(Substitute(bh, cnf, sol).value)
    ensures VariantsDecided(Substitute(bh, cnf, sol).value, ks)
    ensures var hs := GroupHashes(Substitute(bh, cnf, sol).value, ks);
      var cs := KeyCodes(bh, cnf.lutToVariable, ks);
      forall i, o | 0 <= i < |ks| && 0 <= o < VariantsCount(ks[i]) :: hs[i][o] == BitsValue(Truths(sol, cs[i][o]))
  {
    var m := cnf.lutToVariable;
    SubstituteWellFormed(bh, cnf, sol);
    var bh' := Substitute(bh, cnf, sol).value;
    var cs := KeyCodes(bh, m, ks);
    forall i, o | 0 <= i < |ks| && 0 <= o < VariantsCount(ks[i])
      ensures Decided(bh', Variant(ks[i], o))
      ensures Eval(bh', Variant(ks[i], o)) == Ok(BitsValue(Truths(sol, cs[i][o])))
    {
      VariantKeyIs(ks[i], o);
      VariantIsConcrete(ks[i], o);
      assert GroupRead(bh, ks[i], VariantsCount(ks[i]), m);
      assert cs[i][o] == Codes(bh, m, VariantKey(ks[i], o));
      SubstitutedEval(bh, cnf, sol, Variant(ks[i], o));
    }
    var hs := GroupHashes(bh', ks);
    forall i, o | 0 <= i < |ks| && 0 <= o < VariantsCount(ks[i])
      ensures hs[i][o] == BitsValue(Truths(sol, cs[i][o]))
    {
      GroupHashesAt(bh', ks, hs, i, o);
    }
  }

  /** Hash rows that are the values of code vectors' truths are separated
      exactly when each group agrees with its first variant and the first
      variants are pairwise apart. */
  lemma SeparatedIff(sol: Solution, hs: seq<seq<nat>>, cs: seq<seq<seq<int>>>, w: nat)
    requires |hs| == |cs| && Cube(cs, w)
    requires forall i | 0 <= i < |cs| :: |hs[i]| == |cs[i]| > 0
    requires forall i, o | 0 <= i < |cs| && 0 <= o < |cs[i]| :: hs[i][o] == BitsValue(Truths(sol, cs[i][o]))
    ensures Separated(hs, |hs|) <==>
      (forall i | 0 <= i < |cs| :: AgreeWithFirst(sol, cs[i])) &&
      (forall i, j | 0 <= i < j < |cs| :: !SameTruth(sol, cs[i][0], cs[j][0]))
  {
    forall i, o, j, q | 0 <= i < |cs| && 0 <= o < |cs[i]| && 0 <= j < |cs| && 0 <= q < |cs[j]|
      ensures hs[i][o] == hs[j][q] <==> SameTruth(sol, cs[i][o], cs[j][q])
    {
      assert Shaped(cs[i], w) && Shaped(cs[j], w);
      TruthValueSame(sol, cs[i][o], cs[j][q]);
    }
  }

  /** The meaning of `to_cnf`: for a numbering of undecided entries that
      covers every undecided position the keys' variants read, and any
      Boolean assignment of its variables, `substitute` yields a
      well-formed hash that decides every variant, and that hash solves
      the key set exactly when the assignment satisfies all the clauses;
      in particular whenever `is_solution` accepts the assignment. */
  lemma ToCnfMeaning(bh: BitHash, ks: seq<BitVec>, m: map<Pair, int>, sol: Solution)
    requires BitHashes.WellFormed(bh) && |ks| > 0
    requires Numbering(m) && Unbound(bh, m) && KeysRead(bh, ks, |ks|, m) && Boolean(sol, m)
    ensures var cnf := CnfProblem(m, ToCnfClauses(bh, m, ks));
      var r := Substitute(bh, cnf, sol);
      && r.Ok? && BitHashes.WellFormed(r.value) && VariantsDecided(r.value, ks)
      && (AllTrue(sol, cnf.clauses) <==> Solves(r.value, ks))
      && (Cnf.IsSolution(cnf.clauses, sol) == Ok(true) ==> Solves(r.value, ks))
  {
    var cnf := CnfProblem(m, ToCnfClauses(bh, m, ks));
    SubstitutedHashes(bh, cnf, sol, ks);
    var bh' := Substitute(bh, cnf, sol).value;
    var cs := KeyCodes(bh, m, ks);
    SeparatedIff(sol, GroupHashes(bh', ks), cs, |bh.tables|);
    ClausesMeaning(bh, m, ks, sol);
  }
}
