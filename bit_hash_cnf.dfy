/** The CNF encoding of a partially decided hash: `cnf_problem`, checking a
    solver assignment against it, writing an assignment back into the
    luts, and `to_cnf`, which names every undecided lut entry a key reads
    by a CNF variable, asks the variants of each key group to hash alike
    and asks every two groups to hash apart. */
module Cnf {
  import opened Wrappers
  import opened Arith
  import opened BitVectors
  import opened BitHashes

  /** A clause of DIMACS literals: `v` or `-v` for variable `v >= 1`. */
  type Clause = seq<int>

  /** The solver's answer: variable to 1, 0, or -1 when left unassigned. */
  type Solution = map<int, int>

  /** An (output bit, lut address) position. */
  type Pair = (nat, nat)

  /** `cnf_problem`: the variable of each undecided lut entry, and the
      clauses. */
  datatype CnfProblem = CnfProblem(lutToVariable: map<Pair, int>, clauses: seq<Clause>)

  /** What `std::map::at` throws for a missing key. */
  const AtMsg := "map::at"

  function Abs(t: int): nat
  {
    if t < 0 then -t else t
  }

  // ---------------------------------------------------------------------
  // is_solution

  /** A literal holds when its variable is 1 for a positive literal or 0
      for a negative one; -1, and the literal 0, hold for nothing. */
  predicate LitTrue(sol: Solution, t: int)
  {
    Abs(t) in sol && ((sol[Abs(t)] == 0 && t < 0) || (sol[Abs(t)] == 1 && t > 0))
  }

  predicate ClauseTrue(sol: Solution, c: Clause)
  {
    exists j | 0 <= j < |c| :: LitTrue(sol, c[j])
  }

  predicate AllTrue(sol: Solution, cs: seq<Clause>)
  {
    forall i | 0 <= i < |cs| :: ClauseTrue(sol, cs[i])
  }

  /** Every literal's variable has a value in the solution. */
  predicate Covers(sol: Solution, cs: seq<Clause>)
  {
    forall i, j | 0 <= i < |cs| && 0 <= j < |cs[i]| :: Abs(cs[i][j]) in sol
  }

  lemma ClauseTrueSplit(sol: Solution, c: Clause)
    requires |c| > 0
    ensures ClauseTrue(sol, c) <==> LitTrue(sol, c[0]) || ClauseTrue(sol, c[1..])
  {
    if ClauseTrue(sol, c) && !LitTrue(sol, c[0]) {
      var j :| 0 <= j < |c| && LitTrue(sol, c[j]);
      assert c[1..][j - 1] == c[j];
    }
    if ClauseTrue(sol, c[1..]) {
      var j :| 0 <= j < |c| - 1 && LitTrue(sol, c[1..][j]);
      assert c[j + 1] == c[1..][j];
    }
  }

  /** The inner loop of `is_solution`: the literals in order, each looked
      up with `at`, stopping at the first that holds. */
  function ClauseSolved(c: Clause, sol: Solution): (r: Result<bool>)
    decreases |c|
    ensures r.Ok? ==> (r.value <==> ClauseTrue(sol, c))
    ensures r.Err? ==> r.msg == AtMsg && exists j | 0 <= j < |c| :: Abs(c[j]) !in sol
    ensures (forall j | 0 <= j < |c| :: Abs(c[j]) in sol) ==> r.Ok?
  {
    if c == [] then Ok(false)
    else if Abs(c[0]) !in sol then Err(AtMsg)
    else
      var v := sol[Abs(c[0])];
      ClauseTrueSplit(sol, c);
      if (v == 0 && c[0] < 0) || (v == 1 && c[0] > 0) then Ok(true)
      else
        var r := ClauseSolved(c[1..], sol);
        assert r.Err? ==> exists j | 0 <= j < |c| - 1 :: c[1..][j] == c[j + 1] && Abs(c[j + 1]) !in sol;
        r
  }

  /** `is_solution`: the clauses in order, false at the first that no
      literal satisfies; a literal whose variable is missing from the
      solution makes `at` throw. */
  function IsSolution(cs: seq<Clause>, sol: Solution): (r: Result<bool>)
    decreases |cs|
    ensures r.Ok? ==> (r.value <==> AllTrue(sol, cs))
    ensures r.Err? ==> r.msg == AtMsg && !Covers(sol, cs)
    ensures Covers(sol, cs) ==> r.Ok?
  {
    if cs == [] then Ok(true)
    else
      var first := ClauseSolved(cs[0], sol);
      if first.Err? then first
      else if !first.value then Ok(false)
      else
        var r := IsSolution(cs[1..], sol);
        assert forall i | 0 <= i < |cs| - 1 :: cs[1..][i] == cs[i + 1];
        assert AllTrue(sol, cs) <==> ClauseTrue(sol, cs[0]) && AllTrue(sol, cs[1..]) by {
          if ClauseTrue(sol, cs[0]) && AllTrue(sol, cs[1..]) {
            forall i | 0 <= i < |cs| ensures ClauseTrue(sol, cs[i]) {
              if i > 0 {
                assert ClauseTrue(sol, cs[1..][i - 1]);
              }
            }
          }
        }
        r
  }

  // ---------------------------------------------------------------------
  // substitute

  /** The position names a lut entry of the hash. */
  predicate InRange(bh: BitHash, p: Pair)
  {
    p.0 < |bh.tables| && p.1 < |bh.tables[p.0].lut|
  }

  /** The entry `substitute` leaves at position (i, a). */
  function Written(bh: BitHash, cnf: CnfProblem, sol: Solution, i: nat, a: nat): int
    requires i < |bh.tables| && a < |bh.tables[i].lut|
  {
    var p := (i, a);
    if p in cnf.lutToVariable && cnf.lutToVariable[p] in sol then sol[cnf.lutToVariable[p]]
    else bh.tables[i].lut[a]
  }

  /** `substitute`: a copy of the hash in which every position named in
      the problem whose variable has a value takes that value; a named
      position outside the tables makes `at` throw. */
  function Substitute(bh: BitHash, cnf: CnfProblem, sol: Solution): (r: Result<BitHash>)
    ensures r.Err? <==> exists p | p in cnf.lutToVariable :: cnf.lutToVariable[p] in sol && !InRange(bh, p)
    ensures r.Err? ==> r.msg == AtMsg
    ensures r.Ok? ==> r.value.wI == bh.wI && r.value.wO == bh.wO && |r.value.tables| == |bh.tables|
    ensures r.Ok? ==> forall i | 0 <= i < |bh.tables| ::
        && r.value.tables[i].selectors == bh.tables[i].selectors
        && |r.value.tables[i].lut| == |bh.tables[i].lut|
        && forall a | 0 <= a < |bh.tables[i].lut| ::
          && ((i, a) in cnf.lutToVariable && cnf.lutToVariable[(i, a)] in sol ==>
                r.value.tables[i].lut[a] == sol[cnf.lutToVariable[(i, a)]])
          && (r.value.tables[i].lut[a] != bh.tables[i].lut[a] ==>
                (i, a) in cnf.lutToVariable && cnf.lutToVariable[(i, a)] in sol)
  {
    if exists p | p in cnf.lutToVariable :: cnf.lutToVariable[p] in sol && !InRange(bh, p) then Err(AtMsg)
    else
      Ok(BitHash(bh.wI, bh.wO, seq(|bh.tables|, i requires 0 <= i < |bh.tables| =>
        Table(bh.tables[i].selectors, seq(|bh.tables[i].lut|, a requires 0 <= a < |bh.tables[i].lut| =>
          Written(bh, cnf, sol, i, a))))))
  }

  // ---------------------------------------------------------------------
  // Variable numbering (get_idx)

  /** Positions are numbered 1..n, each with its own number. */
  ghost predicate Numbering(m: map<Pair, int>)
  {
    && (forall p | p in m :: 1 <= m[p] <= |m|)
    && (forall p, q | p in m && q in m && p != q :: m[p] != m[q])
  }

  /** `m2` keeps every number `m1` gave. */
  ghost predicate Extends(m1: map<Pair, int>, m2: map<Pair, int>)
  {
    forall p | p in m1 :: p in m2 && m2[p] == m1[p]
  }

  /** Positions new in `m2` are numbered after all of `m1`'s. */
  ghost predicate NumberedAfter(m1: map<Pair, int>, m2: map<Pair, int>)
  {
    forall p | p in m2 && p !in m1 :: m2[p] > |m1|
  }

  /** `get_idx`: the number of a position, a new position taking the next
      number. */
  function Index(m: map<Pair, int>, p: Pair): (r: (int, map<Pair, int>))
    ensures p in r.1 && r.0 == r.1[p] && r.1.Keys == m.Keys + {p}
    ensures Extends(m, r.1) && NumberedAfter(m, r.1)
    ensures Numbering(m) ==> Numbering(r.1)
  {
    if p in m then (m[p], m)
    else
      assert m[p := |m| + 1].Keys == m.Keys + {p};
      (|m| + 1, m[p := |m| + 1])
  }

  lemma ExtendsTransitive(m0: map<Pair, int>, m1: map<Pair, int>, m2: map<Pair, int>)
    requires Extends(m0, m1) && Extends(m1, m2)
    ensures Extends(m0, m2)
  {
  }

  lemma NumberedAfterTransitive(m0: map<Pair, int>, m1: map<Pair, int>, m2: map<Pair, int>)
    requires Extends(m0, m1) && Extends(m1, m2) && NumberedAfter(m0, m1) && NumberedAfter(m1, m2)
    ensures NumberedAfter(m0, m2)
  {
    assert m1.Keys == m0.Keys + (m1.Keys - m0.Keys);
  }

  // ---------------------------------------------------------------------
  // calcHash

  /** The lut address table `i` reads for a concrete key. */
  function Addr(bh: BitHash, i: nat, key: BitVec): nat
    requires i < |bh.tables|
  {
    DeferredAddr(bh, i, key, 1)
  }

  /** The address behind `steps` recursion steps that compute nothing: the
      numbering proofs never look inside an address, and keeping its
      definition one call away keeps the bit arithmetic of addressing out
      of them; `AddrDefinition` opens it. */
  function DeferredAddr(bh: BitHash, i: nat, key: BitVec, steps: nat): nat
    requires i < |bh.tables|
  {
    if steps == 0 then
      var r := KeyAddress(bh.tables[i], key);
      if r.Ok? then r.value else 0
    else DeferredAddr(bh, i, key, steps - 1)
  }

  lemma {:induction false} DeferredAddrAny(bh: BitHash, i: nat, key: BitVec, steps: nat)
    requires i < |bh.tables|
    ensures DeferredAddr(bh, i, key, steps) == DeferredAddr(bh, i, key, 0)
  {
    if steps > 0 {
      DeferredAddrAny(bh, i, key, steps - 1);
    }
  }

  lemma AddrDefinition(bh: BitHash, i: nat, key: BitVec)
    requires i < |bh.tables| && IsConcrete(key)
    ensures KeyAddress(bh.tables[i], key) == Ok(Addr(bh, i, key))
  {
    DeferredAddrAny(bh, i, key, 1);
  }

  /** The entry table `i` holds for the key (0 off the end of the lut,
      which a well-formed table never is). */
  function Entry(bh: BitHash, i: nat, key: BitVec): int
    requires i < |bh.tables|
  {
    var a := Addr(bh, i, key);
    if a < |bh.tables[i].lut| then bh.tables[i].lut[a] else 0
  }

  /** The code `calcHash` gives output bit `i`: 0 for a decided 0, -1 for
      a decided 1, otherwise the number of the position. */
  function Code(bh: BitHash, m: map<Pair, int>, key: BitVec, i: nat): int
    requires i < |bh.tables|
  {
    var e := Entry(bh, i, key);
    if e == 0 then 0
    else if e == 1 then -1
    else if e == -1 && (i, Addr(bh, i, key)) in m then m[(i, Addr(bh, i, key))]
    else 0
  }

  /** Every output bit's code for the key. */
  function Codes(bh: BitHash, m: map<Pair, int>, key: BitVec): (r: seq<int>)
    ensures |r| == |bh.tables|
  {
    DeferredCodes(bh, m, key, 1)
  }

  /** The codes behind `steps` recursion steps that compute nothing, so
      that proofs about whole code vectors do not unfold every code;
      `CodesAt` opens them. */
  function DeferredCodes(bh: BitHash, m: map<Pair, int>, key: BitVec, steps: nat): (r: seq<int>)
    ensures |r| == |bh.tables|
  {
    if steps == 0 then seq(|bh.tables|, i requires 0 <= i < |bh.tables| => Code(bh, m, key, i))
    else DeferredCodes(bh, m, key, steps - 1)
  }

  lemma CodesAt(bh: BitHash, m: map<Pair, int>, key: BitVec)
    ensures forall i | 0 <= i < |bh.tables| :: Codes(bh, m, key)[i] == Code(bh, m, key, i)
  {
    assert DeferredCodes(bh, m, key, 1) == DeferredCodes(bh, m, key, 0);
  }

  /** What `calcHash` leaves for its caller: the key's codes under a
      numbering that extends the old one by positions the key reads, and
      numbers every undecided position it reads. */
  lemma HashedParts(bh: BitHash, key: BitVec, m0: map<Pair, int>, m: map<Pair, int>, codes: seq<int>)
    requires Hashed(bh, key, m0, m, codes, |bh.tables|)
    ensures codes == Codes(bh, m, key) && Numbering(m) && Extends(m0, m)
    ensures NumbersReads(bh, key, |bh.tables|, m)
    ensures forall p | p in m && p !in m0 :: ReadBelow(bh, key, |bh.tables|, p)
  {
    CodesAt(bh, m, key);
  }

  /** `p` is the undecided position one of the first `n` tables reads
      for the key. */
  predicate ReadBelow(bh: BitHash, key: BitVec, n: nat, p: Pair)
  {
    p.0 < n && p.0 < |bh.tables| && Entry(bh, p.0, key) == -1 && p.1 == Addr(bh, p.0, key)
  }

  /** Every undecided position the first `n` tables read is numbered. */
  predicate NumbersReads(bh: BitHash, key: BitVec, n: nat, m: map<Pair, int>)
  {
    forall i | 0 <= i < n && i < |bh.tables| && Entry(bh, i, key) == -1 :: (i, Addr(bh, i, key)) in m
  }

  /** A code depends on the numbering only at the position it reads. */
  lemma CodeFrame(bh: BitHash, m1: map<Pair, int>, m2: map<Pair, int>, key: BitVec, i: nat)
    requires i < |bh.tables| && Extends(m1, m2)
    requires Entry(bh, i, key) == -1 ==> (i, Addr(bh, i, key)) in m1
    ensures Code(bh, m1, key, i) == Code(bh, m2, key, i)
  {
  }

  lemma CodesFrame(bh: BitHash, m1: map<Pair, int>, m2: map<Pair, int>, key: BitVec)
    requires Extends(m1, m2) && NumbersReads(bh, key, |bh.tables|, m1)
    ensures Codes(bh, m1, key) == Codes(bh, m2, key)
  {
    CodesAt(bh, m1, key);
    CodesAt(bh, m2, key);
    forall i | 0 <= i < |bh.tables|
      ensures Code(bh, m1, key, i) == Code(bh, m2, key, i)
    {
      CodeFrame(bh, m1, m2, key, i);
    }
  }

  /** The state `calcHash` reaches after the first `n` output bits: the
      numbering from `m0` extended by the positions those bits read, each
      new one numbered after all of `m0`'s and in bit order, and a code per
      bit. */
  ghost predicate Hashed(bh: BitHash, key: BitVec, m0: map<Pair, int>, m: map<Pair, int>, codes: seq<int>, n: nat)
  {
    && n <= |bh.tables| && |codes| == n
    && Numbering(m0) && Numbering(m) && Extends(m0, m) && NumberedAfter(m0, m)
    && NumbersReads(bh, key, n, m) && (forall p | p in m && p !in m0 :: ReadBelow(bh, key, n, p))
    && (forall i | 0 <= i < n :: codes[i] == Code(bh, m, key, i))
    && (forall i, j | 0 <= i < j < n && codes[i] > |m0| && codes[j] > |m0| :: codes[i] < codes[j])
  }

  /** `calcHash`: the code of every output bit of a concrete key, numbering
      the undecided positions it reads for the first time after every
      position numbered before, in output-bit order. */
  method CalcHash(bh: BitHash, key: BitVec, m0: map<Pair, int>) returns (codes: seq<int>, m: map<Pair, int>)
    requires BitHashes.WellFormed(bh) && Numbering(m0)
    ensures Hashed(bh, key, m0, m, codes, |bh.tables|)
  {
    codes := [];
    m := m0;
    var iO := 0;
    while iO < bh.wO
      invariant iO <= bh.wO == |bh.tables|
      invariant Hashed(bh, key, m0, m, codes, iO)
    {
      codes, m := HashStep(bh, key, m0, m, codes, iO);
      iO := iO + 1;
    }
  }

  /** One output bit of `calcHash`. */
  method HashStep(bh: BitHash, key: BitVec, ghost m0: map<Pair, int>, m: map<Pair, int>, codes: seq<int>, iO: nat)
    returns (codes': seq<int>, m': map<Pair, int>)
    requires BitHashes.WellFormed(bh) && iO < bh.wO
    requires Hashed(bh, key, m0, m, codes, iO)
    ensures Hashed(bh, key, m0, m', codes', iO + 1)
  {
    var addr := Addr(bh, iO, key);
    var bit := Entry(bh, iO, key);
    if bit == 0 {
      codes', m' := codes + [0], m;
      HashedDecided(bh, key, m0, m, codes, iO);
    } else if bit == 1 {
      codes', m' := codes + [-1], m;
      HashedDecided(bh, key, m0, m, codes, iO);
    } else {
      var r := Index(m, (iO, addr));
      codes', m' := codes + [r.0], r.1;
      if (iO, addr) in m {
        HashedSeen(bh, key, m0, m, codes, iO);
      } else {
        HashedNew(bh, key, m0, m, m', codes, iO);
      }
    }
  }

  /** A decided entry: a constant code and no new position. */
  lemma HashedDecided(bh: BitHash, key: BitVec, m0: map<Pair, int>, m: map<Pair, int>, codes: seq<int>, iO: nat)
    requires iO < |bh.tables| && Hashed(bh, key, m0, m, codes, iO)
    requires Entry(bh, iO, key) == 0 || Entry(bh, iO, key) == 1
    ensures Hashed(bh, key, m0, m, codes + [Code(bh, m, key, iO)], iO + 1)
  {
    var c := Code(bh, m, key, iO);
    var codes' := codes + [c];
    OrderSnocLow(codes, |m0|, c);
    forall i | 0 <= i < iO + 1
      ensures codes'[i] == Code(bh, m, key, i)
    {
      if i < iO {
        assert codes'[i] == codes[i];
      }
    }
    forall i | 0 <= i < iO + 1 && i < |bh.tables| && Entry(bh, i, key) == -1
      ensures (i, Addr(bh, i, key)) in m
    {
      assert i < iO;
    }
    forall p | p in m && p !in m0
      ensures ReadBelow(bh, key, iO + 1, p)
    {
      assert ReadBelow(bh, key, iO, p);
    }
    HashedIntro(bh, key, m0, m, codes', iO + 1);
  }

  /** An undecided entry whose position an earlier key read: its number. */
  lemma HashedSeen(bh: BitHash, key: BitVec, m0: map<Pair, int>, m: map<Pair, int>, codes: seq<int>, iO: nat)
    requires iO < |bh.tables| && Hashed(bh, key, m0, m, codes, iO)
    requires Entry(bh, iO, key) == -1 && (iO, Addr(bh, iO, key)) in m
    ensures Hashed(bh, key, m0, m, codes + [m[(iO, Addr(bh, iO, key))]], iO + 1)
  {
    var p := (iO, Addr(bh, iO, key));
    assert !ReadBelow(bh, key, iO, p);
    assert p in m0 && m[p] == m0[p] <= |m0|;
  }

  /** An undecided entry read for the first time: the next number. */
  lemma HashedNew(bh: BitHash, key: BitVec, m0: map<Pair, int>, m: map<Pair, int>, m': map<Pair, int>,
                  codes: seq<int>, iO: nat)
    requires iO < |bh.tables| && Hashed(bh, key, m0, m, codes, iO)
    requires Entry(bh, iO, key) == -1 && (iO, Addr(bh, iO, key)) !in m
    requires m' == m[(iO, Addr(bh, iO, key)) := |m| + 1]
    ensures Hashed(bh, key, m0, m', codes + [|m| + 1], iO + 1)
  {
    var p := (iO, Addr(bh, iO, key));
    NumberingNew(m0, m, m', p);
    ReadsNew(bh, key, m0, m, m', iO);
    CodesNew(bh, key, m, m', codes, iO);
    forall i | 0 <= i < iO
      ensures codes[i] <= |m|
    {
      assert codes[i] == Code(bh, m, key, i);
    }
    OrderSnoc(codes, |m0|, |m| + 1);
    HashedIntro(bh, key, m0, m', codes + [|m| + 1], iO + 1);
  }

  /** `Hashed` from its parts. */
  lemma HashedIntro(bh: BitHash, key: BitVec, m0: map<Pair, int>, m: map<Pair, int>, codes: seq<int>, n: nat)
    requires n <= |bh.tables| && |codes| == n
    requires Numbering(m0) && Numbering(m) && Extends(m0, m) && NumberedAfter(m0, m)
    requires NumbersReads(bh, key, n, m) && (forall p | p in m && p !in m0 :: ReadBelow(bh, key, n, p))
    requires forall i | 0 <= i < n :: codes[i] == Code(bh, m, key, i)
    requires forall i, j | 0 <= i < j < n && codes[i] > |m0| && codes[j] > |m0| :: codes[i] < codes[j]
    ensures Hashed(bh, key, m0, m, codes, n)
  {
  }

  /** Numbering a new position with the next number keeps a numbering. */
  lemma NumberingNew(m0: map<Pair, int>, m: map<Pair, int>, m': map<Pair, int>, p: Pair)
    requires Numbering(m) && Extends(m0, m) && NumberedAfter(m0, m)
    requires p !in m && m' == m[p := |m| + 1]
    ensures Numbering(m') && Extends(m, m') && Extends(m0, m') && NumberedAfter(m0, m')
  {
    var r := Index(m, p);
    assert r.1 == m';
    ExtendsTransitive(m0, m, m');
    NumberedAfterTransitive(m0, m, m');
  }

  /** The new position is the one output bit `iO` reads. */
  lemma ReadsNew(bh: BitHash, key: BitVec, m0: map<Pair, int>, m: map<Pair, int>, m': map<Pair, int>, iO: nat)
    requires iO < |bh.tables| && Entry(bh, iO, key) == -1
    requires NumbersReads(bh, key, iO, m) && (forall p | p in m && p !in m0 :: ReadBelow(bh, key, iO, p))
    requires m' == m[(iO, Addr(bh, iO, key)) := |m| + 1]
    ensures NumbersReads(bh, key, iO + 1, m') && (forall p | p in m' && p !in m0 :: ReadBelow(bh, key, iO + 1, p))
  {
    forall i | 0 <= i < iO + 1 && i < |bh.tables| && Entry(bh, i, key) == -1
      ensures (i, Addr(bh, i, key)) in m'
    {
      if i < iO {
        assert (i, Addr(bh, i, key)) in m;
      }
    }
    forall q | q in m' && q !in m0
      ensures ReadBelow(bh, key, iO + 1, q)
    {
      if q != (iO, Addr(bh, iO, key)) {
        assert q in m && ReadBelow(bh, key, iO, q);
      }
    }
  }

  /** The codes of the earlier bits are unchanged, the new one is its number. */
  lemma CodesNew(bh: BitHash, key: BitVec, m: map<Pair, int>, m': map<Pair, int>, codes: seq<int>, iO: nat)
    requires iO < |bh.tables| && |codes| == iO && Entry(bh, iO, key) == -1
    requires NumbersReads(bh, key, iO, m) && (forall i | 0 <= i < iO :: codes[i] == Code(bh, m, key, i))
    requires (iO, Addr(bh, iO, key)) !in m && m' == m[(iO, Addr(bh, iO, key)) := |m| + 1]
    ensures forall i | 0 <= i < iO + 1 :: (codes + [|m| + 1])[i] == Code(bh, m', key, i)
  {
    var codes' := codes + [|m| + 1];
    forall i | 0 <= i < iO + 1
      ensures codes'[i] == Code(bh, m', key, i)
    {
      if i < iO {
        CodeFrame(bh, m, m', key, i);
      }
    }
  }

  /** Appending a code no greater than the bound leaves the codes above it
      as they were. */
  lemma OrderSnocLow(codes: seq<int>, bound: int, x: int)
    requires forall i, j | 0 <= i < j < |codes| && codes[i] > bound && codes[j] > bound :: codes[i] < codes[j]
    requires x <= bound
    ensures forall i, j | 0 <= i < j < |codes| + 1 && (codes + [x])[i] > bound && (codes + [x])[j] > bound ::
      (codes + [x])[i] < (codes + [x])[j]
  {
    var c := codes + [x];
    forall i, j | 0 <= i < j < |c| && c[i] > bound && c[j] > bound
      ensures c[i] < c[j]
    {
      assert j < |codes| && c[i] == codes[i] && c[j] == codes[j];
    }
  }

  /** Appending a code above every earlier one keeps the new codes in order. */
  lemma OrderSnoc(codes: seq<int>, bound: int, x: int)
    requires forall i, j | 0 <= i < j < |codes| && codes[i] > bound && codes[j] > bound :: codes[i] < codes[j]
    requires forall i | 0 <= i < |codes| :: codes[i] < x
    ensures forall i, j | 0 <= i < j < |codes| + 1 && (codes + [x])[i] > bound && (codes + [x])[j] > bound ::
      (codes + [x])[i] < (codes + [x])[j]
  {
    var c := codes + [x];
    forall i, j | 0 <= i < j < |c| && c[i] > bound && c[j] > bound
      ensures c[i] < c[j]
    {
      if j < |codes| {
        assert c[i] == codes[i] && c[j] == codes[j];
      }
    }
  }
}
