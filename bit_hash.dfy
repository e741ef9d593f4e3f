/** The hash structure `BitHash`: one lookup table per output bit, each
    addressed by the input bits its selectors name. */
module BitHashes {
  import opened Wrappers
  import opened Arith
  import opened BitVectors
  import opened Decimal
  import opened Shuffles

  /** `BitHash::table`: the selected input bits and the lut, whose entries
      are 0, 1 or -1 for an entry not yet decided. */
  datatype Table = Table(selectors: seq<nat>, lut: seq<int>)

  datatype BitHash = BitHash(wI: nat, wO: nat, tables: seq<Table>)

  /** The shape `table::print` asserts: one entry per address, each a trit. */
  predicate TableWellFormed(t: Table)
  {
    |t.lut| == Pow2(|t.selectors|) && AllTrits(t.lut)
  }

  /** One well-formed table per output bit, as `print` and `operator()`
      assert. */
  predicate WellFormed(bh: BitHash)
  {
    |bh.tables| == bh.wO && forall i | 0 <= i < |bh.tables| :: TableWellFormed(bh.tables[i])
  }

  // ---------------------------------------------------------------------
  // Equality

  /** `table::operator==`: selectors and lut compared as vectors. */
  predicate TableEquals(a: Table, b: Table)
    ensures TableEquals(a, b) <==> a == b
  {
    a.selectors == b.selectors && a.lut == b.lut
  }

  /** `BitHash::operator==`: the widths, then the tables one by one. */
  predicate Equals(a: BitHash, b: BitHash)
    ensures Equals(a, b) <==> a == b
  {
    && a.wI == b.wI && a.wO == b.wO && |a.tables| == |b.tables|
    && forall i | 0 <= i < |a.tables| :: TableEquals(a.tables[i], b.tables[i])
  }

  // ---------------------------------------------------------------------
  // Ordering

  /** `table::operator<` as written: whenever the selector lists differ,
      in either direction, the table counts as smaller. */
  function TableLessAsWritten(a: Table, b: Table): bool
  {
    if LexLess(a.selectors, b.selectors) then true
    else if LexLess(b.selectors, a.selectors) then true
    else LexLess(a.lut, b.lut)
  }

  /** Two tables that differ only in one selector are each "less" than the
      other, so the order is not a strict weak order. */
  lemma TableLessAsWrittenBothWays()
    ensures var a, b := Table([0], [0, 0]), Table([1], [0, 0]);
      TableLessAsWritten(a, b) && TableLessAsWritten(b, a)
  {
  }

  /** The intended `table::operator<`: selectors first, then the lut, both
      lexicographically. */
  function TableLess(a: Table, b: Table): bool
  {
    if LexLess(a.selectors, b.selectors) then true
    else if LexLess(b.selectors, a.selectors) then false
    else LexLess(a.lut, b.lut)
  }

  lemma TableLessIrreflexive(a: Table)
    ensures !TableLess(a, a)
  {
    LexIrreflexive(a.selectors);
    LexIrreflexive(a.lut);
  }

  lemma TableLessTransitive(a: Table, b: Table, c: Table)
    requires TableLess(a, b) && TableLess(b, c)
    ensures TableLess(a, c)
  {
    LexTotal(a.selectors, b.selectors);
    LexTotal(b.selectors, c.selectors);
    if LexLess(a.selectors, b.selectors) && LexLess(b.selectors, c.selectors) {
      LexTransitive(a.selectors, b.selectors, c.selectors);
    } else if a.selectors == b.selectors && b.selectors == c.selectors {
      LexTransitive(a.lut, b.lut, c.lut);
    }
    if LexLess(c.selectors, a.selectors) {
      if a.selectors == b.selectors {
        LexAsymmetric(b.selectors, c.selectors);
      } else {
        LexTransitive(c.selectors, a.selectors, b.selectors);
        LexAsymmetric(b.selectors, c.selectors);
      }
    }
  }

  lemma TableLessTotal(a: Table, b: Table)
    ensures a == b || TableLess(a, b) || TableLess(b, a)
  {
    LexTotal(a.selectors, b.selectors);
    LexTotal(a.lut, b.lut);
  }

  /** Lexicographic order of two equally long table lists. */
  function TablesLess(x: seq<Table>, y: seq<Table>): bool
    requires |x| == |y|
  {
    if x == [] then false
    else if TableLess(x[0], y[0]) then true
    else if TableLess(y[0], x[0]) then false
    else TablesLess(x[1..], y[1..])
  }

  /** `BitHash::operator<` over the intended table order: input width, then
      output width, then the tables in turn. The tables are compared only
      for equal output widths, where both hashes hold `wO` tables. */
  function Less(a: BitHash, b: BitHash): bool
    requires |a.tables| == a.wO && |b.tables| == b.wO
  {
    if a.wI != b.wI then a.wI < b.wI
    else if a.wO != b.wO then a.wO < b.wO
    else TablesLess(a.tables, b.tables)
  }

  lemma {:induction false} TablesLessIrreflexive(x: seq<Table>)
    ensures !TablesLess(x, x)
  {
    if x != [] {
      TableLessIrreflexive(x[0]);
      TablesLessIrreflexive(x[1..]);
    }
  }

  lemma {:induction false} TablesLessTransitive(x: seq<Table>, y: seq<Table>, z: seq<Table>)
    requires |x| == |y| == |z| && TablesLess(x, y) && TablesLess(y, z)
    ensures TablesLess(x, z)
  {
    TableLessTotal(x[0], y[0]);
    TableLessTotal(y[0], z[0]);
    TableLessTotal(x[0], z[0]);
    if TableLess(x[0], y[0]) && TableLess(y[0], z[0]) {
      TableLessTransitive(x[0], y[0], z[0]);
    } else if x[0] == y[0] && y[0] == z[0] {
      TablesLessTransitive(x[1..], y[1..], z[1..]);
    }
    if TableLess(z[0], x[0]) {
      if x[0] == y[0] {
        TableLessTransitive(y[0], z[0], y[0]);
        TableLessIrreflexive(y[0]);
      } else if y[0] == z[0] {
        TableLessTransitive(x[0], y[0], x[0]);
        TableLessIrreflexive(x[0]);
      } else {
        TableLessTransitive(x[0], y[0], z[0]);
        TableLessTransitive(x[0], z[0], x[0]);
        TableLessIrreflexive(x[0]);
      }
    }
  }

  lemma {:induction false} TablesLessTotal(x: seq<Table>, y: seq<Table>)
    requires |x| == |y|
    ensures x == y || TablesLess(x, y) || TablesLess(y, x)
  {
    if x != [] {
      TableLessTotal(x[0], y[0]);
      TablesLessTotal(x[1..], y[1..]);
      if x[0] == y[0] && x[1..] == y[1..] {
        assert x == [x[0]] + x[1..] && y == [y[0]] + y[1..];
      }
    }
  }

  /** With the intended table order, `operator<` is a strict total order. */
  lemma LessStrictTotalOrder(a: BitHash, b: BitHash, c: BitHash)
    requires |a.tables| == a.wO && |b.tables| == b.wO && |c.tables| == c.wO
    ensures !Less(a, a)
    ensures Less(a, b) && Less(b, c) ==> Less(a, c)
    ensures a == b || Less(a, b) || Less(b, a)
  {
    TablesLessIrreflexive(a.tables);
    if Less(a, b) && Less(b, c) && a.wI == b.wI == c.wI && a.wO == b.wO == c.wO {
      TablesLessTransitive(a.tables, b.tables, c.tables);
    }
    if a.wI == b.wI && a.wO == b.wO {
      TablesLessTotal(a.tables, b.tables);
    }
  }

  // ---------------------------------------------------------------------
  // Addressing and evaluation

  /** Bit `selectors[i]` of `key`, for each i. */
  function SelectedBits(sel: seq<nat>, key: nat): seq<bool>
  {
    seq(|sel|, i requires 0 <= i < |sel| => Bit(key, sel[i]) == 1)
  }

  /** `table::address(unsigned)`: bit i of the address is input bit
      `selectors[i]` of the key. */
  function Address(t: Table, key: nat): (a: nat)
    ensures a < Pow2(|t.selectors|)
    ensures forall i | 0 <= i < |t.selectors| :: Bit(a, i) == Bit(key, t.selectors[i])
  {
    var b := SelectedBits(t.selectors, key);
    BitsValueBound(b);
    forall i | 0 <= i < |t.selectors|
      ensures Bit(BitsValue(b), i) == Bit(key, t.selectors[i])
    {
      BitsValueBit(b, i);
    }
    BitsValue(b)
  }

  const NonConcreteMsg := "Cannot lookup non-concrete key."

  lemma AtTrit(v: BitVec, o: nat)
    ensures IsTrit(At(v, o))
  {
  }

  /** Position `selectors[i]` of `key` is one, for each i. */
  function KeyBits(sel: seq<nat>, key: BitVec): seq<bool>
  {
    seq(|sel|, i requires 0 <= i < |sel| => At(key, sel[i]) == 1)
  }

  /** `table::address(bit_vector)`: fails on a don't care at a selected
      position; otherwise bit i of the address is `key[selectors[i]]`. */
  function KeyAddress(t: Table, key: BitVec): (r: Result<nat>)
    ensures r.Err? <==> exists i | 0 <= i < |t.selectors| :: At(key, t.selectors[i]) == -1
    ensures r.Err? ==> r.msg == NonConcreteMsg
    ensures IsConcrete(key) ==> r.Ok?
    ensures r.Ok? ==> (r.value < Pow2(|t.selectors|) &&
      forall i | 0 <= i < |t.selectors| :: Bit(r.value, i) == At(key, t.selectors[i]))
  {
    ConcreteIff(key);
    if exists i | 0 <= i < |t.selectors| :: At(key, t.selectors[i]) == -1 then Err(NonConcreteMsg)
    else
      var b := KeyBits(t.selectors, key);
      BitsValueBound(b);
      forall i | 0 <= i < |t.selectors|
        ensures Bit(BitsValue(b), i) == At(key, t.selectors[i])
      {
        BitsValueBit(b, i);
        AtTrit(key, t.selectors[i]);
      }
      Ok(BitsValue(b))
  }

  /** `table::operator()(bit_vector)`: the entry at the key's address, which
      a well-formed table always has. */
  function Lookup(t: Table, key: BitVec): (r: Result<int>)
    requires TableWellFormed(t)
    ensures r.Err? <==> KeyAddress(t, key).Err?
    ensures r.Err? ==> r.msg == NonConcreteMsg
    ensures r.Ok? ==> IsTrit(r.value) && r.value == t.lut[KeyAddress(t, key).value]
  {
    var a := KeyAddress(t, key);
    if a.Err? then Err(a.msg) else Ok(t.lut[a.value])
  }

  /** `table::operator()(unsigned)`: the entry at the key's address. */
  function LookupUnsigned(t: Table, key: nat): (r: int)
    requires TableWellFormed(t)
    ensures IsTrit(r) && r == t.lut[Address(t, key)]
  {
    t.lut[Address(t, key)]
  }

  /** The assertion of `BitHash::operator()`: each table the loop reaches
      before any lookup fails yields 0 or 1. */
  predicate Decided(bh: BitHash, key: BitVec)
    requires WellFormed(bh)
  {
    forall i | 0 <= i < |bh.tables| ::
      (forall j | 0 <= j <= i :: KeyAddress(bh.tables[j], key).Ok?) ==> Lookup(bh.tables[i], key).value != -1
  }

  /** Bit i is table i's entry for the key. */
  function OutputBits(bh: BitHash, key: BitVec): seq<bool>
    requires WellFormed(bh)
    requires forall i | 0 <= i < |bh.tables| :: KeyAddress(bh.tables[i], key).Ok?
  {
    seq(|bh.tables|, i requires 0 <= i < |bh.tables| => Lookup(bh.tables[i], key).value == 1)
  }

  /** `BitHash::operator()(bit_vector)`: bit i of the hash is
      `tables[i](key)`; a don't care read by any table is an error. */
  function Eval(bh: BitHash, key: BitVec): (r: Result<nat>)
    requires WellFormed(bh) && Decided(bh, key)
    ensures r.Err? <==> exists i | 0 <= i < bh.wO :: KeyAddress(bh.tables[i], key).Err?
    ensures r.Err? ==> r.msg == NonConcreteMsg
    ensures IsConcrete(key) ==> r.Ok?
    ensures r.Ok? ==> (r.value < Pow2(bh.wO) &&
      forall i | 0 <= i < bh.wO :: Bit(r.value, i) == Lookup(bh.tables[i], key).value)
  {
    if exists i | 0 <= i < bh.wO :: KeyAddress(bh.tables[i], key).Err? then Err(NonConcreteMsg)
    else
      var b := OutputBits(bh, key);
      BitsValueBound(b);
      forall i | 0 <= i < bh.wO
        ensures Bit(BitsValue(b), i) == Lookup(bh.tables[i], key).value
      {
        BitsValueBit(b, i);
      }
      Ok(BitsValue(b))
  }

  /** Bit i is table i's entry for the unsigned key. */
  function OutputBitsUnsigned(bh: BitHash, key: nat): seq<bool>
    requires WellFormed(bh)
  {
    seq(|bh.tables|, i requires 0 <= i < |bh.tables| => LookupUnsigned(bh.tables[i], key) == 1)
  }

  /** `BitHash::operator()(unsigned)`: bit i of the hash is `tables[i](key)`. */
  function EvalUnsigned(bh: BitHash, key: nat): (h: nat)
    requires key < Pow2(bh.wI) && WellFormed(bh)
    requires forall i | 0 <= i < bh.wO :: LookupUnsigned(bh.tables[i], key) != -1
    ensures h < Pow2(bh.wO)
    ensures forall i | 0 <= i < bh.wO :: Bit(h, i) == LookupUnsigned(bh.tables[i], key)
  {
    var b := OutputBitsUnsigned(bh, key);
    BitsValueBound(b);
    forall i | 0 <= i < bh.wO
      ensures Bit(BitsValue(b), i) == LookupUnsigned(bh.tables[i], key)
    {
      BitsValueBit(b, i);
    }
    BitsValue(b)
  }

  lemma {:induction false} AtBinary(x: nat, i: nat)
    ensures Get(Binary(x), i) == Bit(x, i)
  {
    if x == 0 {
      BitsAbove(0, 0, i);
    } else if i > 0 {
      AtBinary(x / 2, i - 1);
      assert Binary(x)[1..] == Binary(x / 2);
    }
  }

  /** The two address overloads agree on the vector form of a number. */
  lemma AddressAgrees(t: Table, x: nat)
    ensures KeyAddress(t, ToBitVector(x)) == Ok(Address(t, x))
  {
    var v := ToBitVector(x);
    forall i: nat
      ensures At(v, i) == Bit(x, i)
    {
      AtBinary(x, i);
    }
    var a := KeyAddress(t, v).value;
    if a != Address(t, x) {
      BitsDiffer(a, Address(t, x), |t.selectors|);
    }
  }

  /** The two `operator()` overloads agree on the vector form of a number. */
  lemma EvalAgrees(bh: BitHash, x: nat)
    requires x < Pow2(bh.wI) && WellFormed(bh)
    requires forall i | 0 <= i < bh.wO :: LookupUnsigned(bh.tables[i], x) != -1
    ensures Decided(bh, ToBitVector(x))
    ensures Eval(bh, ToBitVector(x)) == Ok(EvalUnsigned(bh, x))
  {
    var v := ToBitVector(x);
    forall i | 0 <= i < bh.wO
      ensures Lookup(bh.tables[i], v) == Ok(LookupUnsigned(bh.tables[i], x))
    {
      AddressAgrees(bh.tables[i], x);
    }
    var h := Eval(bh, v).value;
    if h != EvalUnsigned(bh, x) {
      BitsDiffer(h, EvalUnsigned(bh, x), bh.wO);
    }
  }

  // ---------------------------------------------------------------------
  // The structural hash

  const Modulus32: nat := 0x1_0000_0000
  const Modulus64: nat := 0x1_0000_0000_0000_0000

  /** `hashForLutEntry`, in arithmetic modulo 2^64. */
  function LutEntryTerm(lutIndex: nat, lutOffset: nat, value: int): (h: nat)
    requires IsTrit(value)
    ensures h < Modulus64
  {
    ((lutIndex * 33554467 + lutOffset) * 67108879 * (value + 2)) % Modulus64
  }

  /** `hashForTap`, in arithmetic modulo 2^64; `index + 1` is an unsigned
      32-bit sum. */
  function TapTerm(bitIndex: nat, tapOffset: nat, index: nat): (h: nat)
    ensures h < Modulus64
  {
    ((bitIndex * 134217757 + tapOffset) * 268435459 * ((index + 1) % Modulus32)) % Modulus64
  }

  /** The tap terms of table `i`. */
  function TapSum(i: nat, sel: seq<nat>): nat
  {
    if sel == [] then 0
    else TapSum(i, sel[..|sel| - 1]) + TapTerm(i, |sel| - 1, sel[|sel| - 1])
  }

  /** The lut-entry terms of table `i`. */
  function LutSum(i: nat, lut: seq<int>): nat
    requires AllTrits(lut)
  {
    if lut == [] then 0
    else LutSum(i, lut[..|lut| - 1]) + LutEntryTerm(i, |lut| - 1, lut[|lut| - 1])
  }

  predicate TritLuts(ts: seq<Table>)
  {
    forall i | 0 <= i < |ts| :: AllTrits(ts[i].lut)
  }

  function TablesSum(ts: seq<Table>): nat
    requires TritLuts(ts)
  {
    if ts == [] then 0
    else
      var n := |ts| - 1;
      TablesSum(ts[..n]) + TapSum(n, ts[n].selectors) + LutSum(n, ts[n].lut)
  }

  /** `hash(bh)`: the `uint64_t` accumulator adds every term, so it ends
      as their sum modulo 2^64. */
  function Hash(bh: BitHash): (h: nat)
    requires TritLuts(bh.tables)
    ensures h < Modulus64
  {
    TablesSum(bh.tables) % Modulus64
  }

  /** Lut entry `li` of table `ti` set to `v`, everything else unchanged. */
  function SetEntry(bh: BitHash, ti: nat, li: nat, v: int): (r: BitHash)
    requires ti < |bh.tables| && li < |bh.tables[ti].lut|
    ensures r.wI == bh.wI && r.wO == bh.wO && |r.tables| == |bh.tables|
    ensures forall i | 0 <= i < |r.tables| :: r.tables[i].selectors == bh.tables[i].selectors
    ensures forall i | 0 <= i < |r.tables| && i != ti :: r.tables[i] == bh.tables[i]
    ensures r.tables[ti].lut == bh.tables[ti].lut[li := v]
  {
    var t := bh.tables[ti];
    bh.(tables := bh.tables[ti := t.(lut := t.lut[li := v])])
  }

  lemma {:induction false} LutSumSet(i: nat, lut: seq<int>, li: nat, v: int)
    requires AllTrits(lut) && li < |lut| && IsTrit(v)
    ensures LutSum(i, lut[li := v]) + LutEntryTerm(i, li, lut[li]) == LutSum(i, lut) + LutEntryTerm(i, li, v)
  {
    var lut' := lut[li := v];
    var n := |lut| - 1;
    assert lut'[..n] == if li < n then lut[..n][li := v] else lut[..n];
    if li < n {
      LutSumSet(i, lut[..n], li, v);
    }
  }

  lemma {:induction false} TablesSumSet(ts: seq<Table>, ts': seq<Table>, ti: nat, li: nat, v: int)
    requires TritLuts(ts) && ti < |ts| && li < |ts[ti].lut| && IsTrit(v)
    requires ts' == ts[ti := ts[ti].(lut := ts[ti].lut[li := v])]
    ensures TritLuts(ts')
    ensures TablesSum(ts') + LutEntryTerm(ti, li, ts[ti].lut[li]) == TablesSum(ts) + LutEntryTerm(ti, li, v)
  {
    var n := |ts| - 1;
    if ti < n {
      TablesSumSet(ts[..n], ts'[..n], ti, li, v);
      assert ts'[n] == ts[n];
    } else {
      assert ts'[..n] == ts[..n];
      LutSumSet(n, ts[n].lut, li, v);
    }
  }

  lemma ModAdd(a: nat, b: nat)
    ensures (a % Modulus64 + b) % Modulus64 == (a + b) % Modulus64
  {
    var q := a / Modulus64;
    assert a == q * Modulus64 + a % Modulus64;
    assert a + b == (a % Modulus64 + b) + q * Modulus64;
  }

  /** Changing one lut entry from `u` to `v` moves the hash by exactly
      the difference of the two entry terms, modulo 2^64. */
  lemma HashSetEntry(bh: BitHash, ti: nat, li: nat, v: int)
    requires TritLuts(bh.tables) && ti < |bh.tables| && li < |bh.tables[ti].lut| && IsTrit(v)
    ensures TritLuts(SetEntry(bh, ti, li, v).tables)
    ensures (Hash(SetEntry(bh, ti, li, v)) + LutEntryTerm(ti, li, bh.tables[ti].lut[li])) % Modulus64
         == (Hash(bh) + LutEntryTerm(ti, li, v)) % Modulus64
  {
    var r := SetEntry(bh, ti, li, v);
    var u := bh.tables[ti].lut[li];
    TablesSumSet(bh.tables, r.tables, ti, li, v);
    ModAdd(TablesSum(r.tables), LutEntryTerm(ti, li, u));
    ModAdd(TablesSum(bh.tables), LutEntryTerm(ti, li, v));
  }

  // ---------------------------------------------------------------------
  // is_solution

  /** The lookups of every variant of every key group reach only decided
      entries, as the assertion in `operator()` demands. */
  predicate VariantsDecided(bh: BitHash, ks: seq<BitVec>)
    requires WellFormed(bh)
  {
    forall i, o | 0 <= i < |ks| && 0 <= o < VariantsCount(ks[i]) :: Decided(bh, Variant(ks[i], o))
  }

  /** The hash of variant `o` of `k`; a variant is concrete, so its
      evaluation succeeds. */
  function VariantHash(bh: BitHash, k: BitVec, o: nat): nat
    requires WellFormed(bh) && Decided(bh, Variant(k, o))
  {
    var r := Eval(bh, Variant(k, o));
    if r.Ok? then r.value else 0
  }

  lemma VariantHashEval(bh: BitHash, k: BitVec, o: nat, v: BitVec)
    requires WellFormed(bh) && v == Variant(k, o) && Decided(bh, v)
    ensures Eval(bh, v) == Ok(VariantHash(bh, k, o))
  {
    VariantIsConcrete(k, o);
  }

  /** Row i holds the hashes of the variants of group i, in offset order. */
  function GroupHashes(bh: BitHash, ks: seq<BitVec>): (hs: seq<seq<nat>>)
    requires WellFormed(bh) && VariantsDecided(bh, ks)
    ensures |hs| == |ks|
    ensures forall i | 0 <= i < |ks| :: |hs[i]| == VariantsCount(ks[i]) > 0
  {
    seq(|ks|, i requires 0 <= i < |ks| =>
      seq(VariantsCount(ks[i]), o requires 0 <= o < VariantsCount(ks[i]) => VariantHash(bh, ks[i], o)))
  }

  lemma GroupHashesAt(bh: BitHash, ks: seq<BitVec>, hs: seq<seq<nat>>, i: nat, o: nat)
    requires WellFormed(bh) && VariantsDecided(bh, ks) && hs == GroupHashes(bh, ks)
    requires i < |ks| && o < VariantsCount(ks[i])
    ensures hs[i][o] == VariantHash(bh, ks[i], o)
  {
  }

  /** In separated rows, hashes from different rows differ. */
  lemma SeparatedApart(hs: seq<seq<nat>>, i: nat, j: nat, o1: nat, o2: nat)
    requires forall a | 0 <= a < |hs| :: |hs[a]| > 0
    requires Separated(hs, |hs|) && i < |hs| && j < |hs| && i != j
    requires o1 < |hs[i]| && o2 < |hs[j]|
    ensures hs[i][o1] != hs[j][o2]
  {
    assert hs[i][o1] == hs[i][0] && hs[j][o2] == hs[j][0];
    if i > j {
      assert hs[j][0] != hs[i][0];
    }
  }

  /** The first `n` rows start with pairwise different hashes, and each of
      them holds a single hash. */
  predicate Separated(hs: seq<seq<nat>>, n: nat)
    requires n <= |hs| && forall i | 0 <= i < |hs| :: |hs[i]| > 0
  {
    && (forall i, j | 0 <= i < j < n :: hs[i][0] != hs[j][0])
    && (forall i, o | 0 <= i < n && 0 < o < |hs[i]| :: hs[i][o] == hs[i][0])
  }

  /** The first variants of the groups hash pairwise apart, and every other
      variant of a group hashes like its first. */
  predicate Solves(bh: BitHash, ks: seq<BitVec>)
    requires WellFormed(bh) && VariantsDecided(bh, ks)
  {
    Separated(GroupHashes(bh, ks), |ks|)
  }

  /** A solution keeps the key groups apart: no concrete key of one group
      hashes like any concrete key of another. */
  lemma SolvesSeparates(bh: BitHash, ks: seq<BitVec>, i: nat, j: nat, o1: nat, o2: nat)
    requires WellFormed(bh) && VariantsDecided(bh, ks) && Solves(bh, ks)
    requires i < |ks| && j < |ks| && i != j
    requires o1 < VariantsCount(ks[i]) && o2 < VariantsCount(ks[j])
    ensures VariantHash(bh, ks[i], o1) != VariantHash(bh, ks[j], o2)
  {
    var hs := GroupHashes(bh, ks);
    GroupHashesAt(bh, ks, hs, i, o1);
    GroupHashesAt(bh, ks, hs, j, o2);
    SeparatedApart(hs, i, j, o1, o2);
  }

  /** The lookups of every variant of `k` reach only decided entries. */
  predicate KeyDecided(bh: BitHash, k: BitVec)
    requires WellFormed(bh)
  {
    forall o | 0 <= o < VariantsCount(k) :: Decided(bh, Variant(k, o))
  }

  /** The inner loop of `is_solution`: the variants after the first, walked
      with a variant iterator, each compared with `h`. */
  method RestHashTo(bh: BitHash, k: BitVec, h: nat) returns (same: bool)
    requires WellFormed(bh) && KeyDecided(bh, k)
    ensures same <==> forall o | 0 < o < VariantsCount(k) :: VariantHash(bh, k, o) == h
  {
    TrimmedOfBits(k);
    var it := VariantsBegin(k);
    it.Next();
    var end := VariantsEnd(k);
    assert |it.undefined| == DontCares(k.bits);
    while it.offset != end.offset
      invariant it.Valid() && it.pattern == k.bits
      invariant end.offset == VariantsCount(k) == Pow2(|it.undefined|)
      invariant 1 <= it.offset <= VariantsCount(k)
      invariant forall o | 0 < o < it.offset :: VariantHash(bh, k, o) == h
      decreases VariantsCount(k) - it.offset
    {
      var o := it.offset;
      var v := it.Current();
      VariantHashEval(bh, k, o, v);
      var ho := Eval(bh, v).value;
      if ho != h {
        return false;
      }
      ExtendSame(bh, k, h, o);
      it.Next();
    }
    return true;
  }

  lemma ExtendSame(bh: BitHash, k: BitVec, h: nat, n: nat)
    requires WellFormed(bh) && KeyDecided(bh, k) && n < VariantsCount(k)
    requires forall o | 0 < o < n :: VariantHash(bh, k, o) == h
    requires VariantHash(bh, k, n) == h
    ensures forall o | 0 < o < n + 1 :: VariantHash(bh, k, o) == h
  {
  }

  /** `BitHash::is_solution`: walks the groups in key order, recording each
      first-variant hash and rejecting a repeat, then rejects the group if
      any other variant hashes differently. */
  method IsSolution(bh: BitHash, ks: seq<BitVec>) returns (ok: bool)
    requires WellFormed(bh) && VariantsDecided(bh, ks)
    ensures ok <==> Solves(bh, ks)
  {
    ghost var hs := GroupHashes(bh, ks);
    var hits: set<nat> := {};
    var i := 0;
    while i < |ks|
      invariant 0 <= i <= |ks|
      invariant hits == set a | 0 <= a < i :: hs[a][0]
      invariant Separated(hs, i)
    {
      var k := ks[i];
      TrimmedOfBits(k);
      var it := VariantsBegin(k);
      var v := it.Current();
      VariantHashEval(bh, k, 0, v);
      var h := Eval(bh, v).value;
      GroupHashesAt(bh, ks, hs, i, 0);
      if h in hits {
        ghost var a :| 0 <= a < i && hs[a][0] == h;
        assert !Separated(hs, |ks|);
        return false;
      }
      hits := hits + {h};
      var same := RestHashTo(bh, k, h);
      RowSame(bh, ks, hs, i, h);
      if !same {
        return false;
      }
      SeparatedStep(hs, i);
      i := i + 1;
    }
    return true;
  }

  lemma RowSame(bh: BitHash, ks: seq<BitVec>, hs: seq<seq<nat>>, i: nat, h: nat)
    requires WellFormed(bh) && VariantsDecided(bh, ks) && hs == GroupHashes(bh, ks)
    requires i < |ks|
    ensures KeyDecided(bh, ks[i])
    ensures (forall o | 0 < o < |hs[i]| :: hs[i][o] == h) <==>
      (forall o | 0 < o < VariantsCount(ks[i]) :: VariantHash(bh, ks[i], o) == h)
  {
    forall o | 0 < o < VariantsCount(ks[i])
      ensures hs[i][o] == VariantHash(bh, ks[i], o)
    {
      GroupHashesAt(bh, ks, hs, i, o);
    }
  }

  lemma SeparatedStep(hs: seq<seq<nat>>, i: nat)
    requires i < |hs| && forall a | 0 <= a < |hs| :: |hs[a]| > 0
    requires Separated(hs, i)
    requires forall a | 0 <= a < i :: hs[a][0] != hs[i][0]
    requires forall o | 0 < o < |hs[i]| :: hs[i][o] == hs[i][0]
    ensures Separated(hs, i + 1)
  {
  }

  // ---------------------------------------------------------------------
  // Construction

  /** The selectors of every table, as a shuffle. */
  function Selectors(bh: BitHash): (s: Shuffle)
    ensures |s| == |bh.tables|
    ensures forall i | 0 <= i < |s| :: s[i] == bh.tables[i].selectors
  {
    seq(|bh.tables|, i requires 0 <= i < |bh.tables| => bh.tables[i].selectors)
  }

  /** What `makeRandomShuffle` promises, read off the selectors of a hash:
      canonical order, every input bit used, each table's bits distinct,
      ascending, in range and at least `min(wI, wA)` of them. */
  predicate ShuffledSelectors(bh: BitHash, wA: nat)
  {
    var s := Selectors(bh);
    && LexSorted(s) && Covers(bh.wI, s)
    && forall i | 0 <= i < |s| :: StrictlyAscending(s[i]) && Within(bh.wI, s[i]) && |s[i]| >= Min(bh.wI, wA)
  }

  /** Every lut entry still undecided. */
  predicate Blank(bh: BitHash)
  {
    forall i, j | 0 <= i < |bh.tables| && 0 <= j < |bh.tables[i].lut| :: bh.tables[i].lut[j] == -1
  }

  /** Every lut entry decided. */
  predicate Concrete(bh: BitHash)
  {
    forall i, j | 0 <= i < |bh.tables| && 0 <= j < |bh.tables[i].lut| ::
      bh.tables[i].lut[j] == 0 || bh.tables[i].lut[j] == 1
  }

  /** `makeBitHash`: one table per output bit, its selectors taken from a
      random shuffle and its lut all don't cares. */
  method MakeBitHash(wO: nat, wI: nat, wA: nat) returns (bh: BitHash)
    requires wO > 0 || wI == 0
    ensures WellFormed(bh) && bh.wI == wI && bh.wO == wO
    ensures ShuffledSelectors(bh, wA)
    ensures Blank(bh)
  {
    var shuffle := MakeRandomShuffle(wO, wI, wA);
    var tables: seq<Table> := [];
    var i := 0;
    while i < wO
      invariant 0 <= i <= wO && |tables| == i
      invariant forall k | 0 <= k < i :: tables[k] == Table(shuffle[k], seq(Pow2(|shuffle[k]|), _ => -1))
    {
      tables := tables + [Table(shuffle[i], seq(Pow2(|shuffle[i]|), _ => -1))];
      i := i + 1;
    }
    bh := BitHash(wI, wO, tables);
    assert Selectors(bh) == shuffle;
  }

  /** `makeBitHashConcrete`: as `makeBitHash`, then every lut entry drawn
      as 0 or 1. */
  method MakeBitHashConcrete(wO: nat, wI: nat, wA: nat) returns (bh: BitHash)
    requires wO > 0 || wI == 0
    ensures WellFormed(bh) && bh.wI == wI && bh.wO == wO
    ensures ShuffledSelectors(bh, wA)
    ensures Concrete(bh)
  {
    bh := MakeBitHash(wO, wI, wA);
    ghost var start := bh;
    var ti := 0;
    while ti < |bh.tables|
      invariant 0 <= ti <= |bh.tables| == wO
      invariant WellFormed(bh) && bh.wI == wI && bh.wO == wO
      invariant Selectors(bh) == Selectors(start)
      invariant forall k, j | 0 <= k < ti && 0 <= j < |bh.tables[k].lut| ::
        bh.tables[k].lut[j] == 0 || bh.tables[k].lut[j] == 1
    {
      var li := 0;
      while li < |bh.tables[ti].lut|
        invariant ti < |bh.tables| == wO
        invariant 0 <= li <= |bh.tables[ti].lut|
        invariant WellFormed(bh) && bh.wI == wI && bh.wO == wO
        invariant Selectors(bh) == Selectors(start)
        invariant forall k, j | 0 <= k < ti && 0 <= j < |bh.tables[k].lut| ::
          bh.tables[k].lut[j] == 0 || bh.tables[k].lut[j] == 1
        invariant forall j | 0 <= j < li :: bh.tables[ti].lut[j] == 0 || bh.tables[ti].lut[j] == 1
      {
        var bit: int :| bit == 0 || bit == 1;
        bh := SetEntry(bh, ti, li, bit);
        li := li + 1;
      }
      ti := ti + 1;
    }
  }

  /** With every entry decided, each key the table loop reaches is decided. */
  lemma ConcreteDecided(bh: BitHash, key: BitVec)
    requires WellFormed(bh) && Concrete(bh)
    ensures Decided(bh, key)
  {
    forall i | 0 <= i < |bh.tables| && KeyAddress(bh.tables[i], key).Ok?
      ensures Lookup(bh.tables[i], key).value != -1
    {
    }
  }
}
