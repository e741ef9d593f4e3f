/** The Tseitin expression builder `cnf_expr_t`: Boolean expressions over
    solver literals, folded when an operand is a constant and otherwise
    named by a fresh variable whose defining clauses go to the solver. */
module CnfHelpers {
  import opened Wrappers
  import opened Arith
  import opened BitVectors

  /** `Minisat::Lit`: a variable (numbered from 0) and a sign. */
  datatype Lit = Lit(v: nat, neg: bool)

  /** `~lit`. */
  function Not(l: Lit): (r: Lit)
    ensures r.v == l.v && r.neg != l.neg
  {
    Lit(l.v, !l.neg)
  }

  /** `cnf_expr_t`: one of the two constants (the sentinel literals of the
      variables `var_True` and `var_False`, which never reach a clause) or
      a solver literal. */
  datatype Expr = True | False | Literal(lit: Lit)

  type Clause = seq<Lit>

  /** An assignment of truth values to the solver's variables. */
  type Model = nat -> bool

  predicate LitHolds(m: Model, l: Lit)
  {
    m(l.v) != l.neg
  }

  predicate ClauseHolds(m: Model, c: Clause)
  {
    exists i | 0 <= i < |c| :: LitHolds(m, c[i])
  }

  /** `m` satisfies every clause. */
  predicate Models(m: Model, cs: seq<Clause>)
  {
    forall i | 0 <= i < |cs| :: ClauseHolds(m, cs[i])
  }

  function Value(m: Model, e: Expr): bool
  {
    match e
    case True => true
    case False => false
    case Literal(l) => LitHolds(m, l)
  }

  /** A model of a longer clause list is a model of every prefix of it. */
  lemma ModelsPrefix(m: Model, cs: seq<Clause>, n: nat)
    requires n <= |cs| && Models(m, cs)
    ensures Models(m, cs[..n])
  {
    assert forall i | 0 <= i < n :: cs[..n][i] == cs[i];
  }

  /** Models of a concatenation are the models of both parts. */
  lemma ModelsAppend(m: Model, a: seq<Clause>, b: seq<Clause>)
    ensures Models(m, a + b) <==> Models(m, a) && Models(m, b)
  {
    assert forall i | 0 <= i < |a| :: (a + b)[i] == a[i];
    assert forall i | 0 <= i < |b| :: (a + b)[|a| + i] == b[i];
    if Models(m, a) && Models(m, b) {
      forall i | 0 <= i < |a + b|
        ensures ClauseHolds(m, (a + b)[i])
      {
        if i >= |a| {
          assert (a + b)[i] == b[i - |a|];
        }
      }
    }
  }

  // ---------------------------------------------------------------------
  // Gate definitions

  /** The clauses `operator&` adds for `c = a & b`. */
  function AndGate(a: Lit, b: Lit, c: Lit): seq<Clause>
  {
    [[Not(a), Not(b), c], [a, Not(c)], [b, Not(c)]]
  }

  /** The clauses `operator|` adds for `c = a | b`. */
  function OrGate(a: Lit, b: Lit, c: Lit): seq<Clause>
  {
    [[a, b, Not(c)], [Not(a), c], [Not(b), c]]
  }

  /** The AND clauses hold exactly when `c` is the conjunction of `a` and
      `b`. */
  lemma AndGateDefines(m: Model, a: Lit, b: Lit, c: Lit)
    ensures Models(m, AndGate(a, b, c)) <==> (LitHolds(m, c) <==> LitHolds(m, a) && LitHolds(m, b))
  {
    var cs := AndGate(a, b, c);
    if LitHolds(m, c) <==> LitHolds(m, a) && LitHolds(m, b) {
      if LitHolds(m, c) {
        assert LitHolds(m, cs[0][2]) && LitHolds(m, cs[1][0]) && LitHolds(m, cs[2][0]);
      } else if LitHolds(m, a) {
        assert LitHolds(m, cs[0][1]) && LitHolds(m, cs[1][1]) && LitHolds(m, cs[2][1]);
      } else {
        assert LitHolds(m, cs[0][0]) && LitHolds(m, cs[1][1]) && LitHolds(m, cs[2][1]);
      }
    }
    if Models(m, cs) {
      assert ClauseHolds(m, cs[0]) && ClauseHolds(m, cs[1]) && ClauseHolds(m, cs[2]);
    }
  }

  /** The OR clauses hold exactly when `c` is the disjunction. */
  lemma OrGateDefines(m: Model, a: Lit, b: Lit, c: Lit)
    ensures Models(m, OrGate(a, b, c)) <==> (LitHolds(m, c) <==> LitHolds(m, a) || LitHolds(m, b))
  {
    var cs := OrGate(a, b, c);
    if LitHolds(m, c) <==> LitHolds(m, a) || LitHolds(m, b) {
      if !LitHolds(m, c) {
        assert LitHolds(m, cs[0][2]) && LitHolds(m, cs[1][0]) && LitHolds(m, cs[2][0]);
      } else if LitHolds(m, a) {
        assert LitHolds(m, cs[0][0]) && LitHolds(m, cs[1][1]) && LitHolds(m, cs[2][1]);
      } else {
        assert LitHolds(m, cs[0][1]) && LitHolds(m, cs[1][1]) && LitHolds(m, cs[2][1]);
      }
    }
    if Models(m, cs) {
      assert ClauseHolds(m, cs[0]) && ClauseHolds(m, cs[1]) && ClauseHolds(m, cs[2]);
    }
  }

  // ---------------------------------------------------------------------
  // The solver: a clause sink and a variable counter

  /** The part of `Minisat::Solver` the builder uses. */
  class Solver {
    var nVars: nat
    var clauses: seq<Clause>

    constructor ()
      ensures nVars == 0 && clauses == []
    {
      nVars := 0;
      clauses := [];
    }

    /** `newVar`: the next variable number. */
    method NewVar() returns (v: nat)
      modifies this
      ensures v == old(nVars) && nVars == old(nVars) + 1 && clauses == old(clauses)
    {
      v := nVars;
      nVars := nVars + 1;
    }

    /** `addClause`. */
    method AddClauses(cs: seq<Clause>)
      modifies this
      ensures clauses == old(clauses) + cs && nVars == old(nVars)
    {
      clauses := clauses + cs;
    }
  }

  /** The solver only gained clauses, so its models are models of before. */
  twostate predicate Grew(s: Solver)
    reads s
  {
    |old(s.clauses)| <= |s.clauses| && s.clauses[..|old(s.clauses)|] == old(s.clauses)
  }

  // ---------------------------------------------------------------------
  // Operators

  /** `operator&`: false with a false operand, the other operand with a
      true one; otherwise a fresh variable defined as the conjunction. */
  method And(s: Solver, a: Expr, b: Expr) returns (c: Expr)
    modifies s
    ensures a == False || b == False ==> c == False && unchanged(s)
    ensures a != False && b != False && a == True ==> c == b && unchanged(s)
    ensures a != False && b != False && a != True && b == True ==> c == a && unchanged(s)
    ensures a.Literal? && b.Literal? ==>
      && c == Literal(Lit(old(s.nVars), false)) && s.nVars == old(s.nVars) + 1
      && s.clauses == old(s.clauses) + AndGate(a.lit, b.lit, c.lit)
    ensures Grew(s)
    ensures forall m: Model | Models(m, s.clauses) :: Value(m, c) == (Value(m, a) && Value(m, b))
  {
    if a == False || b == False {
      return False;
    }
    if a == True {
      return b;
    }
    if b == True {
      return a;
    }
    var v := s.NewVar();
    c := Literal(Lit(v, false));
    ghost var before := s.clauses;
    s.AddClauses(AndGate(a.lit, b.lit, c.lit));
    forall m: Model | Models(m, s.clauses)
      ensures Value(m, c) == (Value(m, a) && Value(m, b))
    {
      ModelsAppend(m, before, AndGate(a.lit, b.lit, c.lit));
      AndGateDefines(m, a.lit, b.lit, c.lit);
    }
  }

  /** `operator~`: swaps the constants and negates a literal, adding
      nothing. */
  function Negate(e: Expr): (r: Expr)
    ensures forall m: Model :: Value(m, r) == !Value(m, e)
  {
    match e
    case True => False
    case False => True
    case Literal(l) => Literal(Not(l))
  }

  /** `operator|`: true with a true operand, the other operand with a false
      one; otherwise a fresh variable defined as the disjunction. */
  method Or(s: Solver, a: Expr, b: Expr) returns (c: Expr)
    modifies s
    ensures a == True || b == True ==> c == True && unchanged(s)
    ensures a != True && b != True && a == False ==> c == b && unchanged(s)
    ensures a != True && b != True && a != False && b == False ==> c == a && unchanged(s)
    ensures a.Literal? && b.Literal? ==>
      && c == Literal(Lit(old(s.nVars), false)) && s.nVars == old(s.nVars) + 1
      && s.clauses == old(s.clauses) + OrGate(a.lit, b.lit, c.lit)
    ensures Grew(s)
    ensures forall m: Model | Models(m, s.clauses) :: Value(m, c) == (Value(m, a) || Value(m, b))
  {
    if a == True || b == True {
      return True;
    }
    if a == False {
      return b;
    }
    if b == False {
      return a;
    }
    var v := s.NewVar();
    c := Literal(Lit(v, false));
    ghost var before := s.clauses;
    s.AddClauses(OrGate(a.lit, b.lit, c.lit));
    forall m: Model | Models(m, s.clauses)
      ensures Value(m, c) == (Value(m, a) || Value(m, b))
    {
      ModelsAppend(m, before, OrGate(a.lit, b.lit, c.lit));
      OrGateDefines(m, a.lit, b.lit, c.lit);
    }
  }

  const UnsatisfiableMsg := "Constraint cannot be satisfied."

  /** `requireTrue`: nothing for true, an error for false, otherwise the
      literal as a unit clause. */
  method RequireTrue(s: Solver, e: Expr) returns (r: Result<()>)
    modifies s
    ensures r.Err? <==> e == False
    ensures r.Err? ==> r.msg == UnsatisfiableMsg
    ensures e.Literal? ==> s.clauses == old(s.clauses) + [[e.lit]] && s.nVars == old(s.nVars)
    ensures !e.Literal? ==> unchanged(s)
    ensures r.Ok? ==> forall m: Model | Models(m, s.clauses) :: Value(m, e)
  {
    if e == True {
      return Ok(());
    } else if e == False {
      return Err(UnsatisfiableMsg);
    }
    ghost var before := s.clauses;
    s.AddClauses([[e.lit]]);
    forall m: Model | Models(m, s.clauses)
      ensures Value(m, e)
    {
      ModelsAppend(m, before, [[e.lit]]);
      assert ClauseHolds(m, [[e.lit]][0]);
      var k :| 0 <= k < 1 && LitHolds(m, [e.lit][k]);
    }
    return Ok(());
  }

  /** `requireFalse`: the mirror image of `requireTrue`. */
  method RequireFalse(s: Solver, e: Expr) returns (r: Result<()>)
    modifies s
    ensures r.Err? <==> e == True
    ensures r.Err? ==> r.msg == UnsatisfiableMsg
    ensures e.Literal? ==> s.clauses == old(s.clauses) + [[Not(e.lit)]] && s.nVars == old(s.nVars)
    ensures !e.Literal? ==> unchanged(s)
    ensures r.Ok? ==> forall m: Model | Models(m, s.clauses) :: !Value(m, e)
  {
    if e == False {
      return Ok(());
    } else if e == True {
      return Err(UnsatisfiableMsg);
    }
    ghost var before := s.clauses;
    s.AddClauses([[Not(e.lit)]]);
    forall m: Model | Models(m, s.clauses)
      ensures !Value(m, e)
    {
      ModelsAppend(m, before, [[Not(e.lit)]]);
      assert ClauseHolds(m, [[Not(e.lit)]][0]);
      var k :| 0 <= k < 1 && LitHolds(m, [Not(e.lit)][k]);
    }
    return Ok(());
  }

  // ---------------------------------------------------------------------
  // Unsigned comparison with a constant

  /** The unsigned number the low `n` literals spell in model `m`, bit j
      weighing 2^j. */
  function Number(m: Model, x: seq<Lit>, n: nat): (r: nat)
    requires n <= |x|
    ensures r < Pow2(n)
  {
    if n == 0 then 0 else Number(m, x, n - 1) + (if LitHolds(m, x[n - 1]) then Pow2(n - 1) else 0)
  }

  /** The low `n` bits of a concrete constant as a number. */
  function LowBits(val: BitVec, n: nat): (r: nat)
    ensures r < Pow2(n)
  {
    if n == 0 then 0 else LowBits(val, n - 1) + (if At(val, n - 1) == 1 then Pow2(n - 1) else 0)
  }

  /** A don't care among the low `n` bits of the constant. */
  predicate UnknownBelow(val: BitVec, n: nat)
  {
    exists j | 0 <= j < n :: At(val, j) == -1
  }

  const NotConcreteMsg := "Bits must be concrete."

  /** Comparing the top bit decides the order, given the order of the bits
      below: with a one in the constant, `x <= val` when `x`'s top bit is
      clear or its lower bits are at most the constant's; with a zero, only
      when both hold. */
  lemma CompareTop(m: Model, x: seq<Lit>, val: BitVec, i: nat)
    requires i < |x| && At(val, i) != -1
    ensures Number(m, x, i + 1) <= LowBits(val, i + 1) <==>
      if At(val, i) == 1 then !LitHolds(m, x[i]) || Number(m, x, i) <= LowBits(val, i)
      else !LitHolds(m, x[i]) && Number(m, x, i) <= LowBits(val, i)
  {
  }

  /** `makeLessThanOrEqual`: an expression true exactly in the models where
      the low `i + 1` literals spell a number no larger than the low
      `i + 1` bits of `val`; built from bit 0 up, so a don't care in `val`
      fails after the clauses for the bits below it were added. */
  method MakeLessThanOrEqual(s: Solver, x: seq<Lit>, val: BitVec, i: nat) returns (r: Result<Expr>)
    requires i < |x|
    modifies s
    decreases i
    ensures Grew(s)
    ensures r.Err? <==> UnknownBelow(val, i + 1)
    ensures r.Err? ==> r.msg == NotConcreteMsg
    ensures r.Ok? ==> r.value != False
    ensures r.Ok? ==> forall m: Model | Models(m, s.clauses) ::
      Value(m, r.value) == (Number(m, x, i + 1) <= LowBits(val, i + 1))
  {
    if i == 0 {
      if At(val, 0) == 1 {
        forall m: Model ensures Number(m, x, 1) <= LowBits(val, 1) {
          CompareTop(m, x, val, 0);
        }
        return Ok(True);
      } else if At(val, 0) == 0 {
        forall m: Model ensures (Number(m, x, 1) <= LowBits(val, 1)) == !LitHolds(m, x[0]) {
          CompareTop(m, x, val, 0);
        }
        return Ok(Literal(Not(x[0])));
      } else {
        return Err(NotConcreteMsg);
      }
    }
    var next := MakeLessThanOrEqual(s, x, val, i - 1);
    if next.Err? {
      return next;
    }
    ghost var mid := s.clauses;
    var e: Expr;
    if At(val, i) == 1 {
      e := Or(s, Literal(Not(x[i])), next.value);
    } else if At(val, i) == 0 {
      e := And(s, Literal(Not(x[i])), next.value);
    } else {
      return Err(NotConcreteMsg);
    }
    forall m: Model | Models(m, s.clauses)
      ensures Value(m, e) == (Number(m, x, i + 1) <= LowBits(val, i + 1))
    {
      ModelsPrefix(m, s.clauses, |mid|);
      CompareTop(m, x, val, i);
    }
    return Ok(e);
  }

  /** `requireLessThanOrEqual`: every model of the solver afterwards has
      the literals of `x` spell a number no larger than the low `|x|` bits
      of `val`; `x` must not be empty. */
  method RequireLessThanOrEqual(s: Solver, x: seq<Lit>, val: BitVec) returns (r: Result<()>)
    requires |x| > 0
    modifies s
    ensures Grew(s)
    ensures r.Err? <==> UnknownBelow(val, |x|)
    ensures r.Err? ==> r.msg == NotConcreteMsg
    ensures r.Ok? ==> forall m: Model | Models(m, s.clauses) :: Number(m, x, |x|) <= LowBits(val, |x|)
  {
    var ok := MakeLessThanOrEqual(s, x, val, |x| - 1);
    if ok.Err? {
      return Err(ok.msg);
    }
    ghost var mid := s.clauses;
    r := RequireTrue(s, ok.value);
    forall m: Model | Models(m, s.clauses)
      ensures Number(m, x, |x|) <= LowBits(val, |x|)
    {
      ModelsPrefix(m, s.clauses, |mid|);
    }
  }
}
