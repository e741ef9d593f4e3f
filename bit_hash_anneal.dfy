/** `EntryToKey`: the incremental evaluator behind the greedy and annealing
    searches. It keeps, for a fixed set of concrete keys, each key's hash,
    each bucket's occupancy and the histogram of occupancies, and updates
    all three when one lut bit flips. */
module Anneal {
  import opened Wrappers
  import opened Arith
  import opened BitVectors
  import opened BitHashes
  import opened BucketCounts

  // ---------------------------------------------------------------------
  // Numbering the lut entries, table by table

  /** Number of lut entries in the first `n` tables. */
  function LutsBefore(ts: seq<Table>, n: nat): nat
    requires n <= |ts|
  {
    if n == 0 then 0 else LutsBefore(ts, n - 1) + |ts[n - 1].lut|
  }

  function TotalBits(ts: seq<Table>): nat
  {
    LutsBefore(ts, |ts|)
  }

  /** `p` names an entry: table `p.0`, lut offset `p.1`. */
  predicate InLut(ts: seq<Table>, p: (nat, nat))
  {
    p.0 < |ts| && p.1 < |ts[p.0].lut|
  }

  /** The constructor's linear bit index of entry `p`. */
  function BitIndex(ts: seq<Table>, p: (nat, nat)): nat
    requires InLut(ts, p)
  {
    LutsBefore(ts, p.0) + p.1
  }

  lemma {:induction false} LutsBeforeMonotone(ts: seq<Table>, m: nat, n: nat)
    requires m <= n <= |ts|
    ensures LutsBefore(ts, m) <= LutsBefore(ts, n)
    decreases n
  {
    if m < n {
      LutsBeforeMonotone(ts, m, n - 1);
    }
  }

  lemma BitIndexBound(ts: seq<Table>, p: (nat, nat))
    requires InLut(ts, p)
    ensures BitIndex(ts, p) < TotalBits(ts)
  {
    LutsBeforeMonotone(ts, p.0 + 1, |ts|);
  }

  /** Distinct entries get distinct bit numbers. */
  lemma BitIndexInjective(ts: seq<Table>, p: (nat, nat), q: (nat, nat))
    requires InLut(ts, p) && InLut(ts, q) && BitIndex(ts, p) == BitIndex(ts, q)
    ensures p == q
  {
    if p.0 < q.0 {
      LutsBeforeMonotone(ts, p.0 + 1, q.0);
    } else if q.0 < p.0 {
      LutsBeforeMonotone(ts, q.0 + 1, p.0);
    }
  }

  /** Every bit number below the total names some entry. */
  lemma {:induction false} BitIndexOnto(ts: seq<Table>, n: nat, b: nat)
    requires n <= |ts| && b < LutsBefore(ts, n)
    ensures exists p: (nat, nat) | InLut(ts, p) :: p.0 < n && BitIndex(ts, p) == b
    decreases n
  {
    if b < LutsBefore(ts, n - 1) {
      BitIndexOnto(ts, n - 1, b);
    } else {
      var p := (n - 1, b - LutsBefore(ts, n - 1));
      assert InLut(ts, p) && BitIndex(ts, p) == b;
    }
  }

  /** Tables with the same lut sizes number their entries alike. */
  lemma {:induction false} LutsBeforeSameSizes(ts: seq<Table>, us: seq<Table>, n: nat)
    requires |ts| == |us| && n <= |ts|
    requires forall i | 0 <= i < |ts| :: |ts[i].lut| == |us[i].lut|
    ensures LutsBefore(ts, n) == LutsBefore(us, n)
  {
    if n > 0 {
      LutsBeforeSameSizes(ts, us, n - 1);
    }
  }

  // ---------------------------------------------------------------------
  // Hashes of concrete keys

  /** The address a key selects in a table with selectors `sel`. */
  function EntryOf(sel: seq<nat>, k: BitVec): nat
  {
    BitsValue(KeyBits(sel, k))
  }

  lemma EntryOfAddress(t: Table, k: BitVec)
    requires IsConcrete(k)
    ensures KeyAddress(t, k) == Ok(EntryOf(t.selectors, k))
    ensures EntryOf(t.selectors, k) < Pow2(|t.selectors|)
  {
    BitsValueBound(KeyBits(t.selectors, k));
  }

  function LutBit(t: Table, a: nat): bool
  {
    a < |t.lut| && t.lut[a] == 1
  }

  /** The output bits, table by table, for a concrete key. */
  function HashBits(bh: BitHash, k: BitVec): seq<bool>
  {
    seq(|bh.tables|, i requires 0 <= i < |bh.tables| => LutBit(bh.tables[i], EntryOf(bh.tables[i].selectors, k)))
  }

  function KeyHash(bh: BitHash, k: BitVec): nat
  {
    BitsValue(HashBits(bh, k))
  }

  /** `keys` as the constructor fills it: the hash of every key. */
  function KeyHashes(bh: BitHash, ks: seq<BitVec>): (hs: seq<nat>)
    ensures |hs| == |ks|
  {
    seq(|ks|, i requires 0 <= i < |ks| => KeyHash(bh, ks[i]))
  }

  /** What `EntryToKey` needs: a well-formed hash whose lut entries are all
      decided, and concrete keys. */
  predicate Ready(bh: BitHash, ks: seq<BitVec>)
  {
    BitHashes.WellFormed(bh) && Concrete(bh) && forall k | 0 <= k < |ks| :: IsConcrete(ks[k])
  }

  /** `KeyHash` is what `BitHash::operator()` computes for the key. */
  lemma KeyHashEval(bh: BitHash, k: BitVec)
    requires BitHashes.WellFormed(bh) && Concrete(bh) && IsConcrete(k)
    ensures Decided(bh, k) && BitHashes.Eval(bh, k) == Ok(KeyHash(bh, k))
    ensures KeyHash(bh, k) < Pow2(bh.wO)
  {
    ConcreteDecided(bh, k);
    forall i | 0 <= i < |bh.tables|
      ensures KeyAddress(bh.tables[i], k) == Ok(EntryOf(bh.tables[i].selectors, k))
    {
      EntryOfAddress(bh.tables[i], k);
    }
    assert OutputBits(bh, k) == HashBits(bh, k);
    BitsValueBound(HashBits(bh, k));
  }

  lemma KeyHashesBound(bh: BitHash, ks: seq<BitVec>)
    requires Ready(bh, ks)
    ensures forall k | 0 <= k < |ks| :: KeyHashes(bh, ks)[k] < Pow2(bh.wO)
  {
    forall k | 0 <= k < |ks|
      ensures KeyHashes(bh, ks)[k] < Pow2(bh.wO)
    {
      KeyHashEval(bh, ks[k]);
    }
  }

  // ---------------------------------------------------------------------
  // The score

  /** `evalFull`: over all buckets, the keys beyond the first. */
  function Score(bh: BitHash, ks: seq<BitVec>): nat
  {
    DeferredScore(bh, ks, 1)
  }

  /** The score behind `steps` recursion steps that compute nothing. The
      searches only compare scores, and keeping the definition one call
      away stops the verifier from expanding the hash of every candidate
      they try; `ScoreDefinition` opens it where a proof needs it. */
  function DeferredScore(bh: BitHash, ks: seq<BitVec>, steps: nat): nat
  {
    if steps == 0 then ExcessSum(Buckets(KeyHashes(bh, ks), Pow2(bh.wO))) else DeferredScore(bh, ks, steps - 1)
  }

  lemma {:induction false} DeferredScoreAny(bh: BitHash, ks: seq<BitVec>, steps: nat)
    ensures DeferredScore(bh, ks, steps) == ExcessSum(Buckets(KeyHashes(bh, ks), Pow2(bh.wO)))
  {
    if steps > 0 {
      DeferredScoreAny(bh, ks, steps - 1);
    }
  }

  lemma ScoreDefinition(bh: BitHash, ks: seq<BitVec>)
    ensures Score(bh, ks) == ExcessSum(Buckets(KeyHashes(bh, ks), Pow2(bh.wO)))
  {
    DeferredScoreAny(bh, ks, 1);
  }

  /** A score of zero means a perfect hash: no two keys share a bucket. */
  lemma ScoreZeroIffPerfect(bh: BitHash, ks: seq<BitVec>)
    requires Ready(bh, ks)
    ensures Score(bh, ks) == 0 <==>
      forall i, j | 0 <= i < j < |ks| :: KeyHash(bh, ks[i]) != KeyHash(bh, ks[j])
  {
    var hs := KeyHashes(bh, ks);
    ScoreDefinition(bh, ks);
    KeyHashesBound(bh, ks);
    NoExcessIffDistinct(hs, Pow2(bh.wO));
    assert Distinct(hs) <==> forall i, j | 0 <= i < j < |ks| :: hs[i] != hs[j];
    assert forall i | 0 <= i < |ks| :: hs[i] == KeyHash(bh, ks[i]);
  }

  // ---------------------------------------------------------------------
  // Flipping one lut entry

  /** `*pBit = 1 - *pBit` for the entry `p`. */
  function FlipAt(bh: BitHash, p: (nat, nat)): BitHash
  {
    if InLut(bh.tables, p) then SetEntry(bh, p.0, p.1, 1 - bh.tables[p.0].lut[p.1]) else bh
  }

  /** Same widths, selectors and lut sizes. */
  predicate SameShape(a: BitHash, b: BitHash)
  {
    && a.wI == b.wI && a.wO == b.wO && |a.tables| == |b.tables|
    && forall i | 0 <= i < |a.tables| ::
         a.tables[i].selectors == b.tables[i].selectors && |a.tables[i].lut| == |b.tables[i].lut|
  }

  lemma FlipKeepsShape(bh: BitHash, p: (nat, nat))
    requires BitHashes.WellFormed(bh) && Concrete(bh)
    ensures SameShape(FlipAt(bh, p), bh)
    ensures BitHashes.WellFormed(FlipAt(bh, p)) && Concrete(FlipAt(bh, p))
    ensures TotalBits(FlipAt(bh, p).tables) == TotalBits(bh.tables)
  {
    var r := FlipAt(bh, p);
    if InLut(bh.tables, p) {
      assert forall j | 0 <= j < |r.tables[p.0].lut| :: r.tables[p.0].lut[j] == bh.tables[p.0].lut[j] || j == p.1;
      assert AllTrits(r.tables[p.0].lut);
    }
    LutsBeforeSameSizes(r.tables, bh.tables, |bh.tables|);
  }

  /** Flipping the same entry twice gives back the hash. */
  lemma FlipTwice(bh: BitHash, p: (nat, nat))
    ensures FlipAt(FlipAt(bh, p), p) == bh
  {
    if InLut(bh.tables, p) {
      var t := bh.tables[p.0];
      assert FlipAt(FlipAt(bh, p), p).tables[p.0] == t;
      assert FlipAt(FlipAt(bh, p), p).tables == bh.tables;
    }
  }

  /** A flip toggles output bit `p.0` of exactly the keys that address the
      flipped entry. */
  lemma FlipKeyHash(bh: BitHash, p: (nat, nat), k: BitVec)
    requires BitHashes.WellFormed(bh) && Concrete(bh) && InLut(bh.tables, p)
    ensures KeyHash(FlipAt(bh, p), k) ==
      if EntryOf(bh.tables[p.0].selectors, k) == p.1 then XorBit(KeyHash(bh, k), p.0) else KeyHash(bh, k)
  {
    var b := HashBits(bh, k);
    var r := FlipAt(bh, p);
    if EntryOf(bh.tables[p.0].selectors, k) == p.1 {
      assert HashBits(r, k) == b[p.0 := !b[p.0]];
      BitsValueToggle(b, p.0);
    } else {
      assert HashBits(r, k) == b;
    }
  }

  // ---------------------------------------------------------------------
  // The per-bit key lists

  /** The keys among the first `n` whose address in a table with selectors
      `sel` is `li`, in key order. */
  function KeysAt(sel: seq<nat>, ks: seq<BitVec>, n: nat, li: nat): seq<nat>
    requires n <= |ks|
  {
    if n == 0 then [] else KeysAt(sel, ks, n - 1, li) + (if EntryOf(sel, ks[n - 1]) == li then [n - 1] else [])
  }

  /** The list holds exactly the keys using the entry, each once, ascending. */
  lemma KeysAtMembers(sel: seq<nat>, ks: seq<BitVec>, n: nat, li: nat)
    requires n <= |ks|
    ensures forall k: nat :: k in KeysAt(sel, ks, n, li) <==> k < n && EntryOf(sel, ks[k]) == li
    ensures forall a, b | 0 <= a < b < |KeysAt(sel, ks, n, li)| :: KeysAt(sel, ks, n, li)[a] < KeysAt(sel, ks, n, li)[b]
  {
    KeysAtIn(sel, ks, n, li);
    KeysAtAscending(sel, ks, n, li);
  }

  lemma {:induction false} KeysAtIn(sel: seq<nat>, ks: seq<BitVec>, n: nat, li: nat)
    requires n <= |ks|
    ensures forall k: nat :: k in KeysAt(sel, ks, n, li) <==> k < n && EntryOf(sel, ks[k]) == li
  {
    if n > 0 {
      KeysAtIn(sel, ks, n - 1, li);
      var init := KeysAt(sel, ks, n - 1, li);
      var last: seq<nat> := if EntryOf(sel, ks[n - 1]) == li then [n - 1] else [];
      assert KeysAt(sel, ks, n, li) == init + last;
      forall k: nat
        ensures k in init + last <==> k < n && EntryOf(sel, ks[k]) == li
      {
        assert k in init + last <==> k in init || k in last;
      }
    }
  }

  lemma {:induction false} KeysAtAscending(sel: seq<nat>, ks: seq<BitVec>, n: nat, li: nat)
    requires n <= |ks|
    ensures forall j | 0 <= j < |KeysAt(sel, ks, n, li)| :: KeysAt(sel, ks, n, li)[j] < n
    ensures forall a, b | 0 <= a < b < |KeysAt(sel, ks, n, li)| :: KeysAt(sel, ks, n, li)[a] < KeysAt(sel, ks, n, li)[b]
  {
    if n > 0 {
      KeysAtAscending(sel, ks, n - 1, li);
      var init := KeysAt(sel, ks, n - 1, li);
      var r := KeysAt(sel, ks, n, li);
      assert forall j | 0 <= j < |init| :: r[j] == init[j];
    }
  }

  datatype BitInfo = BitInfo(table: nat, offset: nat, mask: nat, keys: seq<nat>)

  function Pos(info: BitInfo): (nat, nat)
  {
    (info.table, info.offset)
  }

  /** `bits` as the constructor lays it out: one entry per lut entry in
      table-major order, its output-bit mask, and the keys that use it. */
  predicate BitsMatch(bh: BitHash, ks: seq<BitVec>, bits: seq<BitInfo>)
  {
    Attached(bh, ks, bits, |ks|)
  }

  /** The layout with the first `n` keys attached. */
  predicate Attached(bh: BitHash, ks: seq<BitVec>, bits: seq<BitInfo>, n: nat)
    requires n <= |ks|
  {
    && |bits| == TotalBits(bh.tables)
    && forall b | 0 <= b < |bits| ::
         && InLut(bh.tables, Pos(bits[b]))
         && BitIndex(bh.tables, Pos(bits[b])) == b
         && bits[b].mask == Pow2(bits[b].table)
         && bits[b].keys == KeysAt(bh.tables[bits[b].table].selectors, ks, n, bits[b].offset)
  }

  lemma BitsMatchShape(a: BitHash, b: BitHash, ks: seq<BitVec>, bits: seq<BitInfo>)
    requires BitsMatch(a, ks, bits) && SameShape(a, b)
    ensures BitsMatch(b, ks, bits)
  {
    forall n | 0 <= n <= |a.tables|
      ensures LutsBefore(a.tables, n) == LutsBefore(b.tables, n)
    {
      LutsBeforeSameSizes(a.tables, b.tables, n);
    }
  }

  /** Entry `p`'s slot in `bits`. */
  lemma BitsSlot(bh: BitHash, ks: seq<BitVec>, bits: seq<BitInfo>, p: (nat, nat))
    requires BitsMatch(bh, ks, bits) && InLut(bh.tables, p)
    ensures BitIndex(bh.tables, p) < |bits| && Pos(bits[BitIndex(bh.tables, p)]) == p
  {
    BitIndexBound(bh.tables, p);
    var b := BitIndex(bh.tables, p);
    BitIndexInjective(bh.tables, p, Pos(bits[b]));
  }

  /** The four structures of `EntryToKey`, in agreement with the hash. */
  predicate Consistent(bh: BitHash, ks: seq<BitVec>, bits: seq<BitInfo>,
                       keys: seq<nat>, hashes: seq<nat>, counts: seq<nat>)
  {
    && Ready(bh, ks)
    && BitsMatch(bh, ks, bits)
    && keys == KeyHashes(bh, ks)
    && hashes == Buckets(keys, Pow2(bh.wO))
    && IsHistogram(counts, hashes)
  }

  /** The evaluator's state is a function of the hash and the keys, so
      whatever restores the hash restores the whole state. */
  lemma ConsistentUnique(bh: BitHash, ks: seq<BitVec>, bits: seq<BitInfo>, keys: seq<nat>,
                         hashes: seq<nat>, counts: seq<nat>, bits': seq<BitInfo>, counts': seq<nat>)
    requires Consistent(bh, ks, bits, keys, hashes, counts)
    requires Consistent(bh, ks, bits', keys, hashes, counts')
    ensures bits == bits' && counts == counts'
  {
    HistogramUnique(counts, counts', hashes);
    forall b | 0 <= b < |bits|
      ensures bits[b] == bits'[b]
    {
      BitIndexInjective(bh.tables, Pos(bits[b]), Pos(bits'[b]));
    }
  }

  /** After the flip of entry `p`, the keys using it have bit `p.0` of their
      hash toggled and all others are unchanged. */
  lemma FlipHashes(bh: BitHash, ks: seq<BitVec>, p: (nat, nat), users: seq<nat>)
    requires Ready(bh, ks) && InLut(bh.tables, p)
    requires users == KeysAt(bh.tables[p.0].selectors, ks, |ks|, p.1)
    ensures forall k | 0 <= k < |ks| ::
      KeyHashes(FlipAt(bh, p), ks)[k] ==
        if k in users then XorBit(KeyHashes(bh, ks)[k], p.0) else KeyHashes(bh, ks)[k]
  {
    KeysAtMembers(bh.tables[p.0].selectors, ks, |ks|, p.1);
    forall k | 0 <= k < |ks|
      ensures KeyHashes(FlipAt(bh, p), ks)[k] ==
        if k in users then XorBit(KeyHashes(bh, ks)[k], p.0) else KeyHashes(bh, ks)[k]
    {
      FlipKeyHash(bh, p, ks[k]);
    }
  }

  // ---------------------------------------------------------------------
  // Building the structures

  /** The constructor's first loop: one `bit_info` per lut entry, and the
      map from (table, offset) to its index. */
  method LayOut(ts: seq<Table>) returns (bits: seq<BitInfo>, pairToBit: map<(nat, nat), nat>)
    ensures |bits| == TotalBits(ts)
    ensures forall b | 0 <= b < |bits| ::
      InLut(ts, Pos(bits[b])) && BitIndex(ts, Pos(bits[b])) == b &&
      bits[b].mask == Pow2(bits[b].table) && bits[b].keys == []
    ensures forall p: (nat, nat) | InLut(ts, p) :: p in pairToBit && pairToBit[p] == BitIndex(ts, p)
  {
    bits := [];
    pairToBit := map[];
    var ti := 0;
    while ti < |ts|
      invariant ti <= |ts| && |bits| == LutsBefore(ts, ti)
      invariant forall b | 0 <= b < |bits| ::
        InLut(ts, Pos(bits[b])) && Pos(bits[b]).0 < ti && BitIndex(ts, Pos(bits[b])) == b &&
        bits[b].mask == Pow2(bits[b].table) && bits[b].keys == []
      invariant forall p: (nat, nat) | InLut(ts, p) && p.0 < ti :: p in pairToBit && pairToBit[p] == BitIndex(ts, p)
    {
      var li := 0;
      while li < |ts[ti].lut|
        invariant li <= |ts[ti].lut| && |bits| == LutsBefore(ts, ti) + li
        invariant forall b | 0 <= b < |bits| ::
          InLut(ts, Pos(bits[b])) && Pos(bits[b]).0 <= ti && BitIndex(ts, Pos(bits[b])) == b &&
          bits[b].mask == Pow2(bits[b].table) && bits[b].keys == []
        invariant forall p: (nat, nat) | InLut(ts, p) && (p.0 < ti || (p.0 == ti && p.1 < li)) ::
          p in pairToBit && pairToBit[p] == BitIndex(ts, p)
      {
        pairToBit := pairToBit[(ti, li) := |bits|];
        bits := bits + [BitInfo(ti, li, Pow2(ti), [])];
        li := li + 1;
      }
      ti := ti + 1;
    }
  }

  /** `bits'` is `bits` with key `ki` attached in the tables before `ti`. */
  ghost predicate AttachedBelow(bh: BitHash, ks: seq<BitVec>, ki: nat, bits: seq<BitInfo>, bits': seq<BitInfo>, ti: nat)
    requires ki < |ks|
  {
    && |bits'| == |bits|
    && forall b | 0 <= b < |bits'| ::
         && Pos(bits'[b]) == Pos(bits[b]) && bits'[b].mask == bits[b].mask
         && bits'[b].keys == bits[b].keys +
              (if bits[b].table < ti && bits[b].table < |bh.tables|
                  && EntryOf(bh.tables[bits[b].table].selectors, ks[ki]) == bits[b].offset
               then [ki] else [])
  }

  /** Attaching key `ki` to bit `bi`, the entry it addresses in table `ti`. */
  lemma AttachStep(bh: BitHash, ks: seq<BitVec>, ki: nat, bits: seq<BitInfo>, bits': seq<BitInfo>, ti: nat, bi: nat)
    requires ki < |ks| && ti < |bh.tables| && AttachedBelow(bh, ks, ki, bits, bits', ti)
    requires bi < |bits| && Pos(bits[bi]) == (ti, EntryOf(bh.tables[ti].selectors, ks[ki]))
    requires forall b | 0 <= b < |bits| && b != bi :: Pos(bits[b]) != Pos(bits[bi])
    ensures AttachedBelow(bh, ks, ki, bits, bits'[bi := bits'[bi].(keys := bits'[bi].keys + [ki])], ti + 1)
  {
  }

  /** The table loop for key `ki`: the key joins the list of the entry it
      addresses in every table. */
  method AttachKey(bh: BitHash, ks: seq<BitVec>, ki: nat, bits: seq<BitInfo>, pairToBit: map<(nat, nat), nat>)
    returns (bits': seq<BitInfo>)
    requires Ready(bh, ks) && ki < |ks| && Attached(bh, ks, bits, ki)
    requires forall p: (nat, nat) | InLut(bh.tables, p) :: p in pairToBit && pairToBit[p] == BitIndex(bh.tables, p)
    ensures Attached(bh, ks, bits', ki + 1)
  {
    bits' := bits;
    var ti := 0;
    while ti < bh.wO
      invariant ti <= bh.wO && AttachedBelow(bh, ks, ki, bits, bits', ti)
    {
      EntryOfAddress(bh.tables[ti], ks[ki]);
      var li := KeyAddress(bh.tables[ti], ks[ki]).value;
      var p: (nat, nat) := (ti, li);
      assert InLut(bh.tables, p);
      var bi := pairToBit[p];
      BitIndexBound(bh.tables, p);
      BitIndexInjective(bh.tables, p, Pos(bits[bi]));
      forall b | 0 <= b < |bits| && b != bi
        ensures Pos(bits[b]) != Pos(bits[bi])
      {
      }
      AttachStep(bh, ks, ki, bits, bits', ti, bi);
      bits' := bits'[bi := bits'[bi].(keys := bits'[bi].keys + [ki])];
      ti := ti + 1;
    }
    AttachedAll(bh, ks, ki, bits, bits');
  }

  /** After the last table every entry the key addresses has it attached. */
  lemma AttachedAll(bh: BitHash, ks: seq<BitVec>, ki: nat, bits: seq<BitInfo>, bits': seq<BitInfo>)
    requires Ready(bh, ks) && ki < |ks| && Attached(bh, ks, bits, ki)
    requires AttachedBelow(bh, ks, ki, bits, bits', bh.wO)
    ensures Attached(bh, ks, bits', ki + 1)
  {
    assert forall b | 0 <= b < |bits| :: bits[b].table < bh.wO;
  }

  lemma KeyHashesSnoc(bh: BitHash, ks: seq<BitVec>, n: nat)
    requires n < |ks|
    ensures KeyHashes(bh, ks[..n + 1]) == KeyHashes(bh, ks[..n]) + [KeyHash(bh, ks[n])]
  {
  }

  lemma BucketsSnoc(xs: seq<nat>, h: nat, n: nat)
    requires h < n
    ensures Buckets(xs + [h], n) == Buckets(xs, n)[h := Buckets(xs, n)[h] + 1]
  {
    forall g | 0 <= g < n
      ensures Buckets(xs + [h], n)[g] == Buckets(xs, n)[h := Buckets(xs, n)[h] + 1][g]
    {
      OccSnoc(xs, h, g);
    }
  }

  /** One round of the constructor's key loop: attach key `ki` to the
      entries it uses, record its hash and count it in its bucket. */
  method AddKey(bh: BitHash, ks: seq<BitVec>, ki: nat, bits: seq<BitInfo>, keys: seq<nat>, hashes: seq<nat>,
                pairToBit: map<(nat, nat), nat>)
    returns (bits': seq<BitInfo>, keys': seq<nat>, hashes': seq<nat>)
    requires Ready(bh, ks) && ki < |ks| && Attached(bh, ks, bits, ki)
    requires forall p: (nat, nat) | InLut(bh.tables, p) :: p in pairToBit && pairToBit[p] == BitIndex(bh.tables, p)
    requires keys == KeyHashes(bh, ks[..ki]) && hashes == Buckets(keys, Pow2(bh.wO))
    ensures Attached(bh, ks, bits', ki + 1)
    ensures keys' == KeyHashes(bh, ks[..ki + 1]) && hashes' == Buckets(keys', Pow2(bh.wO))
  {
    bits' := AttachKey(bh, ks, ki, bits, pairToBit);
    KeyHashEval(bh, ks[ki]);
    var h := BitHashes.Eval(bh, ks[ki]).value;
    BucketsSnoc(keys, h, Pow2(bh.wO));
    KeyHashesSnoc(bh, ks, ki);
    keys' := keys + [h];
    hashes' := hashes[h := hashes[h] + 1];
  }

  /** The constructor's key loop over every key. */
  method IndexKeys(bh: BitHash, ks: seq<BitVec>, bits: seq<BitInfo>, pairToBit: map<(nat, nat), nat>)
    returns (bits': seq<BitInfo>, keys: seq<nat>, hashes: seq<nat>)
    requires Ready(bh, ks) && Attached(bh, ks, bits, 0)
    requires forall p: (nat, nat) | InLut(bh.tables, p) :: p in pairToBit && pairToBit[p] == BitIndex(bh.tables, p)
    ensures BitsMatch(bh, ks, bits')
    ensures keys == KeyHashes(bh, ks)
    ensures hashes == Buckets(keys, Pow2(bh.wO))
  {
    bits' := bits;
    keys := [];
    hashes := seq(Pow2(bh.wO), _ => 0);
    BucketsEmpty(Pow2(bh.wO));
    var ki := 0;
    while ki < |ks|
      invariant ki <= |ks| && Attached(bh, ks, bits', ki)
      invariant keys == KeyHashes(bh, ks[..ki])
      invariant hashes == Buckets(keys, Pow2(bh.wO))
    {
      bits', keys, hashes := AddKey(bh, ks, ki, bits', keys, hashes, pairToBit);
      ki := ki + 1;
    }
    assert ks[..ki] == ks;
  }

  lemma BucketsEmpty(n: nat)
    ensures Buckets([], n) == seq(n, _ => 0)
  {
  }

  /** `flipBit`'s key loop: each key of `users` leaves its bucket, has
      output bit `t` of its hash toggled, and enters its new bucket. */
  method MoveKeys(users: seq<nat>, t: nat, keys: seq<nat>, ghost target: seq<nat>,
                  hashes: seq<nat>, counts: seq<nat>, ghost n: nat)
    returns (keys': seq<nat>, hashes': seq<nat>, counts': seq<nat>)
    requires |target| == |keys|
    requires forall a, b | 0 <= a < b < |users| :: users[a] < users[b]
    requires forall k :: k in users ==> 0 <= k < |keys|
    requires forall k | 0 <= k < |keys| ::
      target[k] == if k in users then XorBit(keys[k], t) else keys[k]
    requires forall k | 0 <= k < |keys| :: keys[k] < n && target[k] < n
    requires hashes == Buckets(keys, n) && IsHistogram(counts, hashes)
    ensures keys' == target && hashes' == Buckets(target, n) && IsHistogram(counts', hashes')
  {
    keys', hashes', counts' := keys, hashes, counts;
    var j := 0;
    while j < |users|
      invariant j <= |users| && |keys'| == |keys|
      invariant forall k | 0 <= k < |keys| :: keys'[k] == if k in users[..j] then target[k] else keys[k]
      invariant forall k | 0 <= k < |keys| :: keys'[k] < n
      invariant hashes' == Buckets(keys', n)
      invariant IsHistogram(counts', hashes')
    {
      var ki := users[j];
      assert users[j] in users;
      assert ki !in users[..j];
      var key := keys'[ki];
      assert Bit(target[ki], t) != Bit(key, t);
      BucketsUpdate(keys', ki, target[ki], n);
      hashes', counts' := Leave(hashes', counts', key);
      key := XorBit(key, t);
      keys' := keys'[ki := key];
      hashes', counts' := Enter(hashes', counts', key);
      assert users[..j + 1] == users[..j] + [ki];
      j := j + 1;
    }
    assert users[..j] == users;
  }

  // ---------------------------------------------------------------------
  // The evaluator

  class EntryToKey {
    var bh: BitHash
    const ks: seq<BitVec>
    var bits: seq<BitInfo>
    var keys: seq<nat>
    var hashes: seq<nat>
    var counts: seq<nat>

    ghost predicate Valid()
      reads this
    {
      Consistent(bh, ks, bits, keys, hashes, counts)
    }

    /** Lays out the bits, attaches every key to the entries it uses,
        hashes the keys into buckets and builds the histogram. */
    constructor (bh0: BitHash, ks0: seq<BitVec>)
      requires Ready(bh0, ks0)
      ensures Valid() && bh == bh0 && ks == ks0
    {
      bh := bh0;
      ks := ks0;
      new;
      Sync();
    }

    /** `sync`: rebuilds the layout, the key hashes, the buckets and the
        histogram for whatever hash `bh` now holds. */
    method Sync()
      requires Ready(bh, ks)
      modifies this
      ensures Valid() && bh == old(bh)
    {
      var laid, pairToBit := LayOut(bh.tables);
      assert Attached(bh, ks, laid, 0);
      var bs, ys, hs := IndexKeys(bh, ks, laid, pairToBit);
      bits := bs;
      keys := ys;
      hashes := hs;
      var cs := Tally(hs);
      counts := cs;
    }

    /** `bitCount`: one bit per lut entry. */
    function BitCount(): (n: nat)
      reads this
      requires Valid()
      ensures n == TotalBits(bh.tables)
    {
      |bits|
    }

    /** `flipBit(i)`: toggles lut entry i, and moves each key using it to the
        bucket its hash lands in now, keeping the histogram current. */
    method FlipBit(i: nat)
      requires Valid() && i < |bits|
      modifies this
      ensures Valid() && bits == old(bits)
      ensures bh == FlipAt(old(bh), Pos(old(bits)[i]))
      ensures forall k | 0 <= k < |ks| ::
        keys[k] == (if k in old(bits)[i].keys then XorBit(old(keys)[k], old(bits)[i].table) else old(keys)[k])
    {
      var info := bits[i];
      ghost var bh0 := bh;
      ghost var keys0 := keys;
      ghost var n := Pow2(bh.wO);
      bh := SetEntry(bh, info.table, info.offset, 1 - bh.tables[info.table].lut[info.offset]);
      assert bh == FlipAt(bh0, Pos(info));
      FlipKeepsShape(bh0, Pos(info));
      BitsMatchShape(bh0, bh, ks, bits);
      FlipHashes(bh0, ks, Pos(info), info.keys);
      KeysAtMembers(bh0.tables[info.table].selectors, ks, |ks|, info.offset);
      KeyHashesBound(bh, ks);
      KeyHashesBound(bh0, ks);
      var ys, hs, cs := MoveKeys(info.keys, info.table, keys, KeyHashes(bh, ks), hashes, counts, n);
      keys := ys;
      hashes := hs;
      counts := cs;
    }

    /** `eval`: the histogram weighted by the excess of each bucket size. */
    method Eval() returns (r: nat)
      requires Valid()
      ensures r == Score(bh, ks)
    {
      assert hashes[0] < |counts|;
      var acc := 0;
      var i := 1;
      while i < |counts|
        invariant 1 <= i <= |counts|
        invariant acc == HistogramSum(counts, i)
      {
        acc := acc + counts[i] * (i - 1);
        i := i + 1;
      }
      HistogramScore(counts, hashes);
      ScoreDefinition(bh, ks);
      return acc;
    }
  }

  /** `EntryToKey::evalFull`: hashes every key afresh into a vector of
      bucket counts and adds up the keys beyond the first per bucket. */
  method EvalFull(bh: BitHash, ks: seq<BitVec>) returns (r: nat)
    requires Ready(bh, ks)
    ensures r == Score(bh, ks)
  {
    ghost var all := KeyHashes(bh, ks);
    var hits := seq(Pow2(bh.wO), _ => 0);
    BucketsEmpty(Pow2(bh.wO));
    assert all[..0] == [];
    var k := 0;
    while k < |ks|
      invariant k <= |ks|
      invariant hits == Buckets(all[..k], Pow2(bh.wO))
    {
      KeyHashEval(bh, ks[k]);
      var h := BitHashes.Eval(bh, ks[k]).value;
      BucketsSnoc(all[..k], h, Pow2(bh.wO));
      assert all[..k + 1] == all[..k] + [h];
      hits := hits[h := hits[h] + 1];
      k := k + 1;
    }
    assert all[..k] == all;
    var acc := 0;
    var i := 0;
    while i < |hits|
      invariant i <= |hits|
      invariant acc == ExcessSum(hits[..i])
    {
      assert hits[..i + 1][..i] == hits[..i];
      if hits[i] > 0 {
        acc := acc + hits[i] - 1;
      }
      i := i + 1;
    }
    assert hits[..i] == hits;
    ScoreDefinition(bh, ks);
    return acc;
  }

  /** `evalSolution`: the from-scratch score. */
  method EvalSolution(bh: BitHash, ks: seq<BitVec>) returns (r: nat)
    requires Ready(bh, ks)
    ensures r == Score(bh, ks)
  {
    r := EvalFull(bh, ks);
  }

  /** `flipBit(i); flipBit(i)` puts the evaluator back exactly as it was. */
  method FlipBitTwice(et: EntryToKey, i: nat)
    requires et.Valid() && i < |et.bits|
    modifies et
    ensures et.Valid()
    ensures et.bh == old(et.bh) && et.bits == old(et.bits) && et.keys == old(et.keys)
    ensures et.hashes == old(et.hashes) && et.counts == old(et.counts)
  {
    ghost var bh0, bits0, counts0 := et.bh, et.bits, et.counts;
    et.FlipBit(i);
    et.FlipBit(i);
    FlipTwice(bh0, Pos(bits0[i]));
    ConsistentUnique(et.bh, et.ks, et.bits, et.keys, et.hashes, et.counts, bits0, counts0);
  }

  // ---------------------------------------------------------------------
  // Greedy descents

  /** Bit `a`'s entry, for any `a`. */
  function PosOf(bits: seq<BitInfo>, a: nat): (nat, nat)
  {
    if a < |bits| then Pos(bits[a]) else (0, 0)
  }

  function Flip1(bh: BitHash, bits: seq<BitInfo>, a: nat): BitHash
  {
    FlipAt(bh, PosOf(bits, a))
  }

  function Flip2(bh: BitHash, bits: seq<BitInfo>, a: nat, b: nat): BitHash
  {
    FlipAt(Flip1(bh, bits, a), PosOf(bits, b))
  }

  function Flip3(bh: BitHash, bits: seq<BitInfo>, a: nat, b: nat, c: nat): BitHash
  {
    FlipAt(Flip2(bh, bits, a, b), PosOf(bits, c))
  }

  function Flip4(bh: BitHash, bits: seq<BitInfo>, a: nat, b: nat, c: nat, d: nat): BitHash
  {
    FlipAt(Flip3(bh, bits, a, b, c), PosOf(bits, d))
  }

  /** `q` comes after `p` in the constructor's numbering. */
  predicate Before(ts: seq<Table>, p: (nat, nat), q: (nat, nat))
  {
    InLut(ts, p) && InLut(ts, q) && BitIndex(ts, p) < BitIndex(ts, q)
  }

  /** Every single flip of a bit below `n` scores at least `e`. */
  ghost predicate Tried1(bh: BitHash, ks: seq<BitVec>, bits: seq<BitInfo>, e: nat, n: nat)
  {
    forall a: nat | a < n :: e <= Score(Flip1(bh, bits, a), ks)
  }

  /** Every pair `a < b < lim` before `(i, j)` in lexicographic order
      scores at least `e`. */
  ghost predicate Tried2(bh: BitHash, ks: seq<BitVec>, bits: seq<BitInfo>, e: nat, lim: nat, i: nat, j: nat)
  {
    forall a: nat, b: nat | a < b < lim && (a < i || (a == i && b < j)) :: e <= Score(Flip2(bh, bits, a, b), ks)
  }

  ghost predicate Tried3(bh: BitHash, ks: seq<BitVec>, bits: seq<BitInfo>, e: nat, i: nat, j: nat, k: nat)
  {
    forall a: nat, b: nat, c: nat | a < b < c < |bits| && (a < i || (a == i && (b < j || (b == j && c < k)))) ::
      e <= Score(Flip3(bh, bits, a, b, c), ks)
  }

  ghost predicate Tried4(bh: BitHash, ks: seq<BitVec>, bits: seq<BitInfo>, e: nat, i: nat, j: nat, k: nat, m: nat)
  {
    forall a: nat, b: nat, c: nat, d: nat | a < b < c < d < |bits| &&
      (a < i || (a == i && (b < j || (b == j && (c < k || (c == k && d < m)))))) ::
      e <= Score(Flip4(bh, bits, a, b, c, d), ks)
  }

  /** `best` is the hash itself or one of the flips a search tries. */
  ghost predicate Near1(bh: BitHash, bits: seq<BitInfo>, best: BitHash)
  {
    best == bh || exists a: nat | a < |bits| :: best == Flip1(bh, bits, a)
  }

  ghost predicate Near2(bh: BitHash, bits: seq<BitInfo>, best: BitHash)
  {
    best == bh || exists a: nat, b: nat | a < b < |bits| :: best == Flip2(bh, bits, a, b)
  }

  ghost predicate Near3(bh: BitHash, bits: seq<BitInfo>, best: BitHash)
  {
    best == bh || exists a: nat, b: nat, c: nat | a < b < c < |bits| :: best == Flip3(bh, bits, a, b, c)
  }

  ghost predicate Near4(bh: BitHash, bits: seq<BitInfo>, best: BitHash)
  {
    best == bh || exists a: nat, b: nat, c: nat, d: nat | a < b < c < d < |bits| :: best == Flip4(bh, bits, a, b, c, d)
  }

  // The steps of the nested loops, one lemma each.

  lemma Tried1Step(bh: BitHash, ks: seq<BitVec>, bits: seq<BitInfo>, e: nat, e': nat, n: nat)
    requires Tried1(bh, ks, bits, e, n) && e' <= e && e' <= Score(Flip1(bh, bits, n), ks)
    ensures Tried1(bh, ks, bits, e', n + 1)
  {
  }

  lemma Tried2Enter(bh: BitHash, ks: seq<BitVec>, bits: seq<BitInfo>, e: nat, lim: nat, i: nat)
    requires Tried2(bh, ks, bits, e, lim, i, 0)
    ensures Tried2(bh, ks, bits, e, lim, i, i + 1)
  {
  }

  lemma Tried2Step(bh: BitHash, ks: seq<BitVec>, bits: seq<BitInfo>, e: nat, e': nat, lim: nat, i: nat, j: nat)
    requires Tried2(bh, ks, bits, e, lim, i, j) && e' <= e && e' <= Score(Flip2(bh, bits, i, j), ks)
    ensures Tried2(bh, ks, bits, e', lim, i, j + 1)
  {
  }

  lemma Tried2Exit(bh: BitHash, ks: seq<BitVec>, bits: seq<BitInfo>, e: nat, lim: nat, i: nat)
    requires Tried2(bh, ks, bits, e, lim, i, lim)
    ensures Tried2(bh, ks, bits, e, lim, i + 1, 0)
  {
  }

  lemma Tried3Enter(bh: BitHash, ks: seq<BitVec>, bits: seq<BitInfo>, e: nat, i: nat, j: nat)
    requires Tried3(bh, ks, bits, e, i, j, 0)
    ensures Tried3(bh, ks, bits, e, i, j, j + 1)
    ensures j == 0 ==> Tried3(bh, ks, bits, e, i, i + 1, 0)
  {
  }

  lemma Tried3Step(bh: BitHash, ks: seq<BitVec>, bits: seq<BitInfo>, e: nat, e': nat, i: nat, j: nat, k: nat)
    requires Tried3(bh, ks, bits, e, i, j, k) && e' <= e && e' <= Score(Flip3(bh, bits, i, j, k), ks)
    ensures Tried3(bh, ks, bits, e', i, j, k + 1)
  {
  }

  lemma Tried3Exit(bh: BitHash, ks: seq<BitVec>, bits: seq<BitInfo>, e: nat, i: nat, j: nat)
    requires Tried3(bh, ks, bits, e, i, j, |bits|)
    ensures Tried3(bh, ks, bits, e, i, j + 1, 0)
    ensures j + 2 >= |bits| ==> Tried3(bh, ks, bits, e, i + 1, 0, 0)
  {
  }

  lemma Tried4Enter(bh: BitHash, ks: seq<BitVec>, bits: seq<BitInfo>, e: nat, i: nat, j: nat, k: nat)
    requires Tried4(bh, ks, bits, e, i, j, k, 0)
    ensures Tried4(bh, ks, bits, e, i, j, k, k + 1)
    ensures k == 0 ==> Tried4(bh, ks, bits, e, i, j, j + 1, 0)
    ensures j == 0 && k == 0 ==> Tried4(bh, ks, bits, e, i, i + 1, 0, 0)
  {
  }

  lemma Tried4Step(bh: BitHash, ks: seq<BitVec>, bits: seq<BitInfo>, e: nat, e': nat, i: nat, j: nat, k: nat, m: nat)
    requires Tried4(bh, ks, bits, e, i, j, k, m) && e' <= e && e' <= Score(Flip4(bh, bits, i, j, k, m), ks)
    ensures Tried4(bh, ks, bits, e', i, j, k, m + 1)
  {
  }

  lemma Tried4Exit(bh: BitHash, ks: seq<BitVec>, bits: seq<BitInfo>, e: nat, i: nat, j: nat, k: nat)
    requires Tried4(bh, ks, bits, e, i, j, k, |bits|)
    ensures Tried4(bh, ks, bits, e, i, j, k + 1, 0)
    ensures k + 2 >= |bits| ==> Tried4(bh, ks, bits, e, i, j + 1, 0, 0)
    ensures k + 2 >= |bits| && j + 3 >= |bits| ==> Tried4(bh, ks, bits, e, i + 1, 0, 0, 0)
  {
  }

  lemma Near1Keep(bh: BitHash, bits: seq<BitInfo>, prev: BitHash, best: BitHash, a: nat)
    requires Near1(bh, bits, prev) && a < |bits| && (best == prev || best == Flip1(bh, bits, a))
    ensures Near1(bh, bits, best)
  {
  }

  lemma Near2Keep(bh: BitHash, bits: seq<BitInfo>, prev: BitHash, best: BitHash, a: nat, b: nat)
    requires Near2(bh, bits, prev) && a < b < |bits| && (best == prev || best == Flip2(bh, bits, a, b))
    ensures Near2(bh, bits, best)
  {
  }

  lemma Near3Keep(bh: BitHash, bits: seq<BitInfo>, prev: BitHash, best: BitHash, a: nat, b: nat, c: nat)
    requires Near3(bh, bits, prev) && a < b < c < |bits| && (best == prev || best == Flip3(bh, bits, a, b, c))
    ensures Near3(bh, bits, best)
  {
  }

  lemma Near4Keep(bh: BitHash, bits: seq<BitInfo>, prev: BitHash, best: BitHash, a: nat, b: nat, c: nat, d: nat)
    requires Near4(bh, bits, prev) && a < b < c < d < |bits| && (best == prev || best == Flip4(bh, bits, a, b, c, d))
    ensures Near4(bh, bits, best)
  {
  }

  // From bit numbers back to lut entries.

  lemma Flip1Slot(bh: BitHash, ks: seq<BitVec>, bits: seq<BitInfo>, p: (nat, nat))
    requires BitsMatch(bh, ks, bits) && InLut(bh.tables, p)
    ensures BitIndex(bh.tables, p) < |bits| && PosOf(bits, BitIndex(bh.tables, p)) == p
    ensures Flip1(bh, bits, BitIndex(bh.tables, p)) == FlipAt(bh, p)
  {
    BitsSlot(bh, ks, bits, p);
  }

  lemma Flip2Slot(bh: BitHash, ks: seq<BitVec>, bits: seq<BitInfo>, p: (nat, nat), q: (nat, nat))
    requires BitsMatch(bh, ks, bits) && InLut(bh.tables, p) && InLut(bh.tables, q)
    ensures Flip2(bh, bits, BitIndex(bh.tables, p), BitIndex(bh.tables, q)) == FlipAt(FlipAt(bh, p), q)
  {
    Flip1Slot(bh, ks, bits, p);
    Flip1Slot(bh, ks, bits, q);
  }

  lemma Flip3Slot(bh: BitHash, ks: seq<BitVec>, bits: seq<BitInfo>, p: (nat, nat), q: (nat, nat), r: (nat, nat))
    requires BitsMatch(bh, ks, bits) && InLut(bh.tables, p) && InLut(bh.tables, q) && InLut(bh.tables, r)
    ensures Flip3(bh, bits, BitIndex(bh.tables, p), BitIndex(bh.tables, q), BitIndex(bh.tables, r)) ==
      FlipAt(FlipAt(FlipAt(bh, p), q), r)
  {
    Flip2Slot(bh, ks, bits, p, q);
    Flip1Slot(bh, ks, bits, r);
  }

  lemma Flip4Slot(bh: BitHash, ks: seq<BitVec>, bits: seq<BitInfo>, p: (nat, nat), q: (nat, nat), r: (nat, nat), t: (nat, nat))
    requires BitsMatch(bh, ks, bits)
    requires InLut(bh.tables, p) && InLut(bh.tables, q) && InLut(bh.tables, r) && InLut(bh.tables, t)
    ensures Flip4(bh, bits, BitIndex(bh.tables, p), BitIndex(bh.tables, q), BitIndex(bh.tables, r),
      BitIndex(bh.tables, t)) == FlipAt(FlipAt(FlipAt(FlipAt(bh, p), q), r), t)
  {
    Flip3Slot(bh, ks, bits, p, q, r);
    Flip1Slot(bh, ks, bits, t);
  }

  lemma PosOfSlot(bh: BitHash, ks: seq<BitVec>, bits: seq<BitInfo>, a: nat)
    requires BitsMatch(bh, ks, bits) && a < |bits|
    ensures InLut(bh.tables, PosOf(bits, a)) && BitIndex(bh.tables, PosOf(bits, a)) == a
  {
  }

  lemma OneFlipsCovered(bh: BitHash, ks: seq<BitVec>, bits: seq<BitInfo>, best: BitHash, e: nat, n: nat)
    requires BitsMatch(bh, ks, bits) && Near1(bh, bits, best)
    requires e == Score(best, ks) && n == |bits| && Tried1(bh, ks, bits, e, n)
    ensures best == bh || exists p: (nat, nat) | InLut(bh.tables, p) :: best == FlipAt(bh, p)
    ensures forall p: (nat, nat) | InLut(bh.tables, p) :: Score(best, ks) <= Score(FlipAt(bh, p), ks)
  {
    forall p: (nat, nat) | InLut(bh.tables, p)
      ensures Score(best, ks) <= Score(FlipAt(bh, p), ks)
    {
      Flip1Slot(bh, ks, bits, p);
    }
    if best != bh {
      var a: nat :| a < |bits| && best == Flip1(bh, bits, a);
      assert InLut(bh.tables, PosOf(bits, a));
    }
  }

  lemma Tried2All(bh: BitHash, ks: seq<BitVec>, bits: seq<BitInfo>, e: nat, lim: nat, a: nat, b: nat)
    requires Tried2(bh, ks, bits, e, lim, lim, 0) && a < b < lim
    ensures e <= Score(Flip2(bh, bits, a, b), ks)
  {
  }

  lemma TwoFlipsCovered(bh: BitHash, ks: seq<BitVec>, bits: seq<BitInfo>, best: BitHash, lim: nat)
    requires BitsMatch(bh, ks, bits) && Tried2(bh, ks, bits, Score(best, ks), lim, lim, 0)
    ensures forall p: (nat, nat), q: (nat, nat) | Before(bh.tables, p, q) && BitIndex(bh.tables, q) < lim ::
      Score(best, ks) <= Score(FlipAt(FlipAt(bh, p), q), ks)
  {
    forall p: (nat, nat), q: (nat, nat) | Before(bh.tables, p, q) && BitIndex(bh.tables, q) < lim
      ensures Score(best, ks) <= Score(FlipAt(FlipAt(bh, p), q), ks)
    {
      Flip2Slot(bh, ks, bits, p, q);
      Tried2All(bh, ks, bits, Score(best, ks), lim, BitIndex(bh.tables, p), BitIndex(bh.tables, q));
    }
  }

  lemma NearTwo(bh: BitHash, ks: seq<BitVec>, bits: seq<BitInfo>, best: BitHash)
    requires BitsMatch(bh, ks, bits) && Near2(bh, bits, best)
    ensures best == bh || exists p: (nat, nat), q: (nat, nat) | Before(bh.tables, p, q) ::
      best == FlipAt(FlipAt(bh, p), q)
  {
    if best != bh {
      var a: nat, b: nat :| a < b < |bits| && best == Flip2(bh, bits, a, b);
      PosOfSlot(bh, ks, bits, a);
      PosOfSlot(bh, ks, bits, b);
      var p, q := PosOf(bits, a), PosOf(bits, b);
      assert Before(bh.tables, p, q) && best == FlipAt(FlipAt(bh, p), q);
    }
  }

  lemma Tried3All(bh: BitHash, ks: seq<BitVec>, bits: seq<BitInfo>, e: nat, i: nat, a: nat, b: nat, c: nat)
    requires Tried3(bh, ks, bits, e, i, 0, 0) && i + 2 >= |bits| && a < b < c < |bits|
    ensures e <= Score(Flip3(bh, bits, a, b, c), ks)
  {
  }

  lemma ThreeFlipsCovered(bh: BitHash, ks: seq<BitVec>, bits: seq<BitInfo>, best: BitHash, i: nat)
    requires BitsMatch(bh, ks, bits) && Tried3(bh, ks, bits, Score(best, ks), i, 0, 0)
    requires i + 2 >= |bits|
    ensures forall p: (nat, nat), q: (nat, nat), r: (nat, nat) | Before(bh.tables, p, q) && Before(bh.tables, q, r) ::
      Score(best, ks) <= Score(FlipAt(FlipAt(FlipAt(bh, p), q), r), ks)
  {
    forall p: (nat, nat), q: (nat, nat), r: (nat, nat) | Before(bh.tables, p, q) && Before(bh.tables, q, r)
      ensures Score(best, ks) <= Score(FlipAt(FlipAt(FlipAt(bh, p), q), r), ks)
    {
      Flip3Slot(bh, ks, bits, p, q, r);
      BitIndexBound(bh.tables, r);
      Tried3All(bh, ks, bits, Score(best, ks), i, BitIndex(bh.tables, p), BitIndex(bh.tables, q), BitIndex(bh.tables, r));
    }
  }

  lemma NearThree(bh: BitHash, ks: seq<BitVec>, bits: seq<BitInfo>, best: BitHash)
    requires BitsMatch(bh, ks, bits) && Near3(bh, bits, best)
    ensures best == bh || exists p: (nat, nat), q: (nat, nat), r: (nat, nat) |
      Before(bh.tables, p, q) && Before(bh.tables, q, r) :: best == FlipAt(FlipAt(FlipAt(bh, p), q), r)
  {
    if best != bh {
      var a: nat, b: nat, c: nat :| a < b < c < |bits| && best == Flip3(bh, bits, a, b, c);
      PosOfSlot(bh, ks, bits, a);
      PosOfSlot(bh, ks, bits, b);
      PosOfSlot(bh, ks, bits, c);
      var p, q, r := PosOf(bits, a), PosOf(bits, b), PosOf(bits, c);
      assert Before(bh.tables, p, q) && Before(bh.tables, q, r);
      assert best == FlipAt(FlipAt(FlipAt(bh, p), q), r);
    }
  }

  lemma Tried4All(bh: BitHash, ks: seq<BitVec>, bits: seq<BitInfo>, e: nat, i: nat, a: nat, b: nat, c: nat, d: nat)
    requires Tried4(bh, ks, bits, e, i, 0, 0, 0) && i + 3 >= |bits| && a < b < c < d < |bits|
    ensures e <= Score(Flip4(bh, bits, a, b, c, d), ks)
  {
  }

  lemma FourFlipsCovered(bh: BitHash, ks: seq<BitVec>, bits: seq<BitInfo>, best: BitHash, i: nat)
    requires BitsMatch(bh, ks, bits) && Tried4(bh, ks, bits, Score(best, ks), i, 0, 0, 0)
    requires i + 3 >= |bits|
    ensures forall p: (nat, nat), q: (nat, nat), r: (nat, nat), t: (nat, nat) |
      Before(bh.tables, p, q) && Before(bh.tables, q, r) && Before(bh.tables, r, t) ::
      Score(best, ks) <= Score(FlipAt(FlipAt(FlipAt(FlipAt(bh, p), q), r), t), ks)
  {
    forall p: (nat, nat), q: (nat, nat), r: (nat, nat), t: (nat, nat) |
      Before(bh.tables, p, q) && Before(bh.tables, q, r) && Before(bh.tables, r, t)
      ensures Score(best, ks) <= Score(FlipAt(FlipAt(FlipAt(FlipAt(bh, p), q), r), t), ks)
    {
      Flip4Slot(bh, ks, bits, p, q, r, t);
      BitIndexBound(bh.tables, t);
      Tried4All(bh, ks, bits, Score(best, ks), i, BitIndex(bh.tables, p), BitIndex(bh.tables, q),
        BitIndex(bh.tables, r), BitIndex(bh.tables, t));
    }
  }

  lemma NearFour(bh: BitHash, ks: seq<BitVec>, bits: seq<BitInfo>, best: BitHash)
    requires BitsMatch(bh, ks, bits) && Near4(bh, bits, best)
    ensures best == bh || exists p: (nat, nat), q: (nat, nat), r: (nat, nat), t: (nat, nat) |
      Before(bh.tables, p, q) && Before(bh.tables, q, r) && Before(bh.tables, r, t) ::
      best == FlipAt(FlipAt(FlipAt(FlipAt(bh, p), q), r), t)
  {
    if best != bh {
      var a: nat, b: nat, c: nat, d: nat :| a < b < c < d < |bits| && best == Flip4(bh, bits, a, b, c, d);
      PosOfSlot(bh, ks, bits, a);
      PosOfSlot(bh, ks, bits, b);
      PosOfSlot(bh, ks, bits, c);
      PosOfSlot(bh, ks, bits, d);
      var p, q, r, t := PosOf(bits, a), PosOf(bits, b), PosOf(bits, c), PosOf(bits, d);
      assert Before(bh.tables, p, q) && Before(bh.tables, q, r) && Before(bh.tables, r, t);
      assert best == FlipAt(FlipAt(FlipAt(FlipAt(bh, p), q), r), t);
    }
  }

  /** The innermost step of every fast greedy search: flip bit `j`, keep
      the flipped hash if it beats the best score so far, flip it back. */
  method Probe(et: EntryToKey, j: nat, best: BitHash, eBest: nat) returns (best': BitHash, eBest': nat)
    requires et.Valid() && j < |et.bits|
    modifies et
    ensures et.Valid() && et.bh == old(et.bh) && et.bits == old(et.bits)
    ensures var cand := FlipAt(old(et.bh), Pos(old(et.bits)[j]));
      if Score(cand, et.ks) < eBest then best' == cand && eBest' == Score(cand, et.ks)
      else best' == best && eBest' == eBest
  {
    ghost var bh0 := et.bh;
    et.FlipBit(j);
    var eCurr := et.Eval();
    best', eBest' := best, eBest;
    if eCurr < eBest {
      best' := et.bh;
      eBest' := eCurr;
    }
    et.FlipBit(j);
    FlipTwice(bh0, Pos(et.bits[j]));
  }

  /** `b=1-b` on the copy `curr` together with `et.flipBit(linear)`, where
      `linear` is the bit number of entry `p`. */
  method FlipBoth(et: EntryToKey, curr: BitHash, p: (nat, nat), linear: nat) returns (curr': BitHash)
    requires et.Valid() && et.bh == curr && InLut(curr.tables, p) && linear < |et.bits| && Pos(et.bits[linear]) == p
    modifies et
    ensures et.Valid() && et.bits == old(et.bits) && et.bh == curr' && curr' == FlipAt(curr, p)
    ensures InLut(curr'.tables, p)
  {
    curr' := SetEntry(curr, p.0, p.1, 1 - curr.tables[p.0].lut[p.1]);
    assert curr' == FlipAt(curr, p);
    FlipKeepsShape(curr, p);
    et.FlipBit(linear);
  }

  /** The body of `greedyOneBit`'s loop: flip entry `p` both in the copy
      `curr` and, as bit `linear`, in the evaluator; the from-scratch and the
      incremental scores agree; keep the copy if it is better; undo both. */
  method SlowProbe(et: EntryToKey, curr: BitHash, p: (nat, nat), linear: nat, best: BitHash, eBest: nat)
    returns (best': BitHash, eBest': nat)
    requires et.Valid() && et.bh == curr && InLut(curr.tables, p) && linear < |et.bits| && Pos(et.bits[linear]) == p
    modifies et
    ensures et.Valid() && et.bh == old(et.bh) && et.bits == old(et.bits)
    ensures var cand := FlipAt(curr, p);
      if Score(cand, et.ks) < eBest then best' == cand && eBest' == Score(cand, et.ks)
      else best' == best && eBest' == eBest
  {
    var flipped := FlipBoth(et, curr, p, linear);
    var eCurr := EvalSolution(flipped, et.ks);
    var eFollow := et.Eval();
    assert eCurr == eFollow;
    best', eBest' := best, eBest;
    if eCurr < eBest {
      best' := flipped;
      eBest' := eCurr;
    }
    var restored := FlipBoth(et, flipped, p, linear);
    FlipTwice(curr, p);
  }

  /** `greedyOneBit`'s loop over the lut of table `i`. */
  method GreedyOneBitTable(et: EntryToKey, curr: BitHash, ghost bits: seq<BitInfo>, i: nat, linear: nat,
                           best: BitHash, eBest: nat)
    returns (linear': nat, best': BitHash, eBest': nat)
    requires et.Valid() && et.bh == curr && et.bits == bits && i < |curr.tables|
    requires linear == LutsBefore(curr.tables, i)
    requires eBest == Score(best, et.ks) <= Score(curr, et.ks)
    requires Near1(curr, bits, best) && Tried1(curr, et.ks, bits, eBest, linear)
    modifies et
    ensures et.Valid() && et.bh == curr && et.bits == bits
    ensures linear' == linear + |curr.tables[i].lut|
    ensures eBest' == Score(best', et.ks) <= Score(curr, et.ks)
    ensures Near1(curr, bits, best') && Tried1(curr, et.ks, bits, eBest', linear')
  {
    linear', best', eBest' := linear, best, eBest;
    var li := 0;
    while li < |curr.tables[i].lut|
      invariant et.Valid() && et.bh == curr && et.bits == bits
      invariant li <= |curr.tables[i].lut| && linear' == LutsBefore(curr.tables, i) + li
      invariant eBest' == Score(best', et.ks) <= Score(curr, et.ks)
      invariant Near1(curr, bits, best') && Tried1(curr, et.ks, bits, eBest', linear')
    {
      var p: (nat, nat) := (i, li);
      Flip1Slot(curr, et.ks, bits, p);
      assert BitIndex(curr.tables, p) == linear';
      assert Pos(bits[linear']) == p;
      ghost var prev, prevBest := eBest', best';
      best', eBest' := SlowProbe(et, curr, p, linear', best', eBest');
      Tried1Step(curr, et.ks, bits, prev, eBest', linear');
      Near1Keep(curr, bits, prevBest, best', linear');
      linear' := linear' + 1;
      li := li + 1;
    }
  }

  /** `greedyOneBit`: tries every single flip, scoring each from scratch in
      a copy of the hash and incrementally in the evaluator, which agree. */
  method GreedyOneBit(bh: BitHash, problem: seq<BitVec>) returns (best: BitHash)
    requires Ready(bh, problem)
    ensures Score(best, problem) <= Score(bh, problem)
    ensures best == bh || exists p: (nat, nat) | InLut(bh.tables, p) :: best == FlipAt(bh, p)
    ensures forall p: (nat, nat) | InLut(bh.tables, p) :: Score(best, problem) <= Score(FlipAt(bh, p), problem)
  {
    best := bh;
    var eBest := EvalSolution(bh, problem);
    var et := new EntryToKey(bh, problem);
    ghost var bits := et.bits;
    var curr := best;
    var linear := 0;
    var i := 0;
    while i < |curr.tables|
      invariant et.Valid() && et.bh == curr && et.ks == problem && et.bits == bits
      invariant i <= |curr.tables| && linear == LutsBefore(curr.tables, i)
      invariant eBest == Score(best, problem) <= Score(curr, problem)
      invariant Near1(curr, bits, best) && Tried1(curr, problem, bits, eBest, linear)
    {
      linear, best, eBest := GreedyOneBitTable(et, curr, bits, i, linear, best, eBest);
      i := i + 1;
    }
    assert linear == TotalBits(curr.tables);
    OneFlipsCovered(bh, problem, bits, best, eBest, linear);
  }

  /** `greedyOneBitFast`: the best of the hash and its single-bit flips. */
  method GreedyOneBitFast(bh: BitHash, problem: seq<BitVec>) returns (best: BitHash)
    requires Ready(bh, problem)
    ensures Score(best, problem) <= Score(bh, problem)
    ensures best == bh || exists p: (nat, nat) | InLut(bh.tables, p) :: best == FlipAt(bh, p)
    ensures forall p: (nat, nat) | InLut(bh.tables, p) :: Score(best, problem) <= Score(FlipAt(bh, p), problem)
  {
    var et := new EntryToKey(bh, problem);
    ghost var bits := et.bits;
    var eBest := et.Eval();
    best := bh;
    var linear := 0;
    while linear < et.BitCount()
      invariant et.Valid() && et.bh == bh && et.ks == problem && et.bits == bits
      invariant linear <= |bits|
      invariant eBest == Score(best, problem) <= Score(bh, problem)
      invariant Near1(bh, bits, best) && Tried1(bh, problem, bits, eBest, linear)
    {
      ghost var prev, prevBest := eBest, best;
      best, eBest := Probe(et, linear, best, eBest);
      Tried1Step(bh, problem, bits, prev, eBest, linear);
      Near1Keep(bh, bits, prevBest, best, linear);
      linear := linear + 1;
    }
    OneFlipsCovered(bh, problem, bits, best, eBest, linear);
  }

  /** The inner loop of `greedyTwoBitFast`: flip bit `i`, try every `j`
      after it below `lim`, and flip `i` back. */
  method TwoBitInner(et: EntryToKey, ghost bh: BitHash, ghost bits: seq<BitInfo>, ghost lim: nat, i: nat,
                     best: BitHash, eBest: nat) returns (best': BitHash, eBest': nat)
    requires et.Valid() && et.bh == bh && et.bits == bits && i < lim && lim == |bits| - 1
    requires eBest == Score(best, et.ks) <= Score(bh, et.ks)
    requires Near2(bh, bits, best) && Tried2(bh, et.ks, bits, eBest, lim, i, 0)
    modifies et
    ensures et.Valid() && et.bh == bh && et.bits == bits
    ensures eBest' == Score(best', et.ks) <= Score(bh, et.ks)
    ensures Near2(bh, bits, best') && Tried2(bh, et.ks, bits, eBest', lim, i + 1, 0)
  {
    best', eBest' := best, eBest;
    et.FlipBit(i);
    Tried2Enter(bh, et.ks, bits, eBest', lim, i);
    var j := i + 1;
    while j < et.BitCount() - 1
      invariant et.Valid() && et.bh == Flip1(bh, bits, i) && et.bits == bits
      invariant i < j <= lim
      invariant eBest' == Score(best', et.ks) <= Score(bh, et.ks)
      invariant Near2(bh, bits, best') && Tried2(bh, et.ks, bits, eBest', lim, i, j)
    {
      ghost var prev, prevBest := eBest', best';
      best', eBest' := Probe(et, j, best', eBest');
      Tried2Step(bh, et.ks, bits, prev, eBest', lim, i, j);
      Near2Keep(bh, bits, prevBest, best', i, j);
      j := j + 1;
    }
    et.FlipBit(i);
    FlipTwice(bh, PosOf(bits, i));
    Tried2Exit(bh, et.ks, bits, eBest', lim, i);
  }

  /** `greedyTwoBitFast`, as written: its inner bound `bitCount()-1` leaves
      out every pair that ends at the last bit. With no bits at all the
      unsigned bound `bitCount()-1` wraps and `bits.at(0)` throws. */
  method GreedyTwoBitFast(bh: BitHash, problem: seq<BitVec>) returns (best: BitHash)
    requires Ready(bh, problem) && TotalBits(bh.tables) >= 1
    ensures Score(best, problem) <= Score(bh, problem)
    ensures best == bh || exists p: (nat, nat), q: (nat, nat) | Before(bh.tables, p, q) ::
      best == FlipAt(FlipAt(bh, p), q)
    ensures forall p: (nat, nat), q: (nat, nat) |
      Before(bh.tables, p, q) && BitIndex(bh.tables, q) < TotalBits(bh.tables) - 1 ::
      Score(best, problem) <= Score(FlipAt(FlipAt(bh, p), q), problem)
  {
    var et := new EntryToKey(bh, problem);
    ghost var bits := et.bits;
    ghost var lim := |bits| - 1;
    var eBest := et.Eval();
    best := bh;
    var i := 0;
    while i < et.BitCount() - 1
      invariant et.Valid() && et.bh == bh && et.ks == problem && et.bits == bits
      invariant i <= lim
      invariant eBest == Score(best, problem) <= Score(bh, problem)
      invariant Near2(bh, bits, best) && Tried2(bh, problem, bits, eBest, lim, i, 0)
    {
      best, eBest := TwoBitInner(et, bh, bits, lim, i, best, eBest);
      i := i + 1;
    }
    TwoFlipsCovered(bh, problem, bits, best, lim);
    NearTwo(bh, problem, bits, best);
  }

  /** The innermost loop of `greedyThreeBitFast`, with bit `i` flipped:
      flip bit `j`, try every `k` after it, and flip `j` back. */
  method ThreeBitInner(et: EntryToKey, ghost bh: BitHash, ghost bits: seq<BitInfo>, i: nat, j: nat,
                       best: BitHash, eBest: nat) returns (best': BitHash, eBest': nat)
    requires et.Valid() && et.bh == Flip1(bh, bits, i) && et.bits == bits && i < j < |bits|
    requires eBest == Score(best, et.ks) <= Score(bh, et.ks)
    requires Near3(bh, bits, best) && Tried3(bh, et.ks, bits, eBest, i, j, 0)
    modifies et
    ensures et.Valid() && et.bh == old(et.bh) && et.bits == bits
    ensures eBest' == Score(best', et.ks) <= Score(bh, et.ks)
    ensures Near3(bh, bits, best') && Tried3(bh, et.ks, bits, eBest', i, j + 1, 0)
    ensures j + 2 >= |bits| ==> Tried3(bh, et.ks, bits, eBest', i + 1, 0, 0)
  {
    best', eBest' := best, eBest;
    et.FlipBit(j);
    Tried3Enter(bh, et.ks, bits, eBest', i, j);
    var k := j + 1;
    while k < et.BitCount()
      invariant et.Valid() && et.bh == Flip2(bh, bits, i, j) && et.bits == bits
      invariant j < k <= |bits|
      invariant eBest' == Score(best', et.ks) <= Score(bh, et.ks)
      invariant Near3(bh, bits, best') && Tried3(bh, et.ks, bits, eBest', i, j, k)
    {
      ghost var prev, prevBest := eBest', best';
      best', eBest' := Probe(et, k, best', eBest');
      Tried3Step(bh, et.ks, bits, prev, eBest', i, j, k);
      Near3Keep(bh, bits, prevBest, best', i, j, k);
      k := k + 1;
    }
    et.FlipBit(j);
    FlipTwice(Flip1(bh, bits, i), PosOf(bits, j));
    Tried3Exit(bh, et.ks, bits, eBest', i, j);
  }

  /** `greedyThreeBitFast`: the best of the hash and every flip of three
      distinct bits. With fewer than two bits the unsigned bound
      `bitCount()-2` wraps and a flip goes out of range. */
  method GreedyThreeBitFast(bh: BitHash, problem: seq<BitVec>) returns (best: BitHash)
    requires Ready(bh, problem) && TotalBits(bh.tables) >= 2
    ensures Score(best, problem) <= Score(bh, problem)
    ensures best == bh || exists p: (nat, nat), q: (nat, nat), r: (nat, nat) |
      Before(bh.tables, p, q) && Before(bh.tables, q, r) :: best == FlipAt(FlipAt(FlipAt(bh, p), q), r)
    ensures forall p: (nat, nat), q: (nat, nat), r: (nat, nat) |
      Before(bh.tables, p, q) && Before(bh.tables, q, r) ::
      Score(best, problem) <= Score(FlipAt(FlipAt(FlipAt(bh, p), q), r), problem)
  {
    var et := new EntryToKey(bh, problem);
    ghost var bits := et.bits;
    var eBest := et.Eval();
    best := bh;
    var i := 0;
    while i < et.BitCount() - 2
      invariant et.Valid() && et.bh == bh && et.ks == problem && et.bits == bits
      invariant i <= |bits| - 2
      invariant eBest == Score(best, problem) <= Score(bh, problem)
      invariant Near3(bh, bits, best) && Tried3(bh, problem, bits, eBest, i, 0, 0)
    {
      et.FlipBit(i);
      Tried3Enter(bh, problem, bits, eBest, i, 0);
      var j := i + 1;
      while j < et.BitCount() - 1
        invariant et.Valid() && et.bh == Flip1(bh, bits, i) && et.ks == problem && et.bits == bits
        invariant i < j <= |bits| - 1
        invariant eBest == Score(best, problem) <= Score(bh, problem)
        invariant Near3(bh, bits, best) && Tried3(bh, problem, bits, eBest, i, j, 0)
      {
        best, eBest := ThreeBitInner(et, bh, bits, i, j, best, eBest);
        j := j + 1;
      }
      et.FlipBit(i);
      FlipTwice(bh, PosOf(bits, i));
      i := i + 1;
    }
    ThreeFlipsCovered(bh, problem, bits, best, i);
    NearThree(bh, problem, bits, best);
  }

  /** The innermost loop of `greedyFourBitFast`, with bits `i` and `j`
      flipped: flip bit `k`, try every `m` after it, and flip `k` back. */
  method FourBitLast(et: EntryToKey, ghost bh: BitHash, ghost bits: seq<BitInfo>, i: nat, j: nat, k: nat,
                     best: BitHash, eBest: nat) returns (best': BitHash, eBest': nat)
    requires et.Valid() && et.bh == Flip2(bh, bits, i, j) && et.bits == bits && i < j < k < |bits|
    requires eBest == Score(best, et.ks) <= Score(bh, et.ks)
    requires Near4(bh, bits, best) && Tried4(bh, et.ks, bits, eBest, i, j, k, 0)
    modifies et
    ensures et.Valid() && et.bh == old(et.bh) && et.bits == bits
    ensures eBest' == Score(best', et.ks) <= Score(bh, et.ks)
    ensures Near4(bh, bits, best') && Tried4(bh, et.ks, bits, eBest', i, j, k + 1, 0)
  {
    best', eBest' := best, eBest;
    et.FlipBit(k);
    Tried4Enter(bh, et.ks, bits, eBest', i, j, k);
    var m := k + 1;
    while m < et.BitCount()
      invariant et.Valid() && et.bh == Flip3(bh, bits, i, j, k) && et.bits == bits
      invariant k < m <= |bits|
      invariant eBest' == Score(best', et.ks) <= Score(bh, et.ks)
      invariant Near4(bh, bits, best') && Tried4(bh, et.ks, bits, eBest', i, j, k, m)
    {
      ghost var prev, prevBest := eBest', best';
      best', eBest' := Probe(et, m, best', eBest');
      Tried4Step(bh, et.ks, bits, prev, eBest', i, j, k, m);
      Near4Keep(bh, bits, prevBest, best', i, j, k, m);
      m := m + 1;
    }
    et.FlipBit(k);
    FlipTwice(Flip2(bh, bits, i, j), PosOf(bits, k));
    Tried4Exit(bh, et.ks, bits, eBest', i, j, k);
  }

  /** The two inner loops of `greedyFourBitFast`, with bits `i` and `j`
      flipped: every `k` and `m` after them. */
  method FourBitInner(et: EntryToKey, ghost bh: BitHash, ghost bits: seq<BitInfo>, i: nat, j: nat,
                      best: BitHash, eBest: nat) returns (best': BitHash, eBest': nat)
    requires et.Valid() && et.bh == Flip2(bh, bits, i, j) && et.bits == bits && i < j < |bits|
    requires eBest == Score(best, et.ks) <= Score(bh, et.ks)
    requires Near4(bh, bits, best) && Tried4(bh, et.ks, bits, eBest, i, j, j + 1, 0)
    modifies et
    ensures et.Valid() && et.bh == old(et.bh) && et.bits == bits
    ensures eBest' == Score(best', et.ks) <= Score(bh, et.ks)
    ensures Near4(bh, bits, best') && Tried4(bh, et.ks, bits, eBest', i, j + 1, 0, 0)
  {
    best', eBest' := best, eBest;
    var k := j + 1;
    while k < et.BitCount() - 1
      invariant et.Valid() && et.bh == Flip2(bh, bits, i, j) && et.bits == bits
      invariant j < k && (k <= |bits| - 1 || k == j + 1)
      invariant eBest' == Score(best', et.ks) <= Score(bh, et.ks)
      invariant Near4(bh, bits, best') && Tried4(bh, et.ks, bits, eBest', i, j, k, 0)
    {
      best', eBest' := FourBitLast(et, bh, bits, i, j, k, best', eBest');
      k := k + 1;
    }
    Tried4Exit(bh, et.ks, bits, eBest', i, j, |bits|);
  }

  /** The loop over `j` of `greedyFourBitFast`: flip bit `i`, for every
      `j` after it flip `j` and try the rest, then flip `i` back. */
  method FourBitMiddle(et: EntryToKey, ghost bh: BitHash, ghost bits: seq<BitInfo>, i: nat,
                       best: BitHash, eBest: nat) returns (best': BitHash, eBest': nat)
    requires et.Valid() && et.bh == bh && et.bits == bits && i + 3 <= |bits|
    requires eBest == Score(best, et.ks) <= Score(bh, et.ks)
    requires Near4(bh, bits, best) && Tried4(bh, et.ks, bits, eBest, i, 0, 0, 0)
    modifies et
    ensures et.Valid() && et.bh == bh && et.bits == bits
    ensures eBest' == Score(best', et.ks) <= Score(bh, et.ks)
    ensures Near4(bh, bits, best') && Tried4(bh, et.ks, bits, eBest', i + 1, 0, 0, 0)
  {
    best', eBest' := best, eBest;
    et.FlipBit(i);
    Tried4Enter(bh, et.ks, bits, eBest', i, 0, 0);
    var j := i + 1;
    while j < et.BitCount() - 1
      invariant et.Valid() && et.bh == Flip1(bh, bits, i) && et.bits == bits
      invariant i < j <= |bits| - 1
      invariant eBest' == Score(best', et.ks) <= Score(bh, et.ks)
      invariant Near4(bh, bits, best') && Tried4(bh, et.ks, bits, eBest', i, j, 0, 0)
    {
      et.FlipBit(j);
      Tried4Enter(bh, et.ks, bits, eBest', i, j, 0);
      best', eBest' := FourBitInner(et, bh, bits, i, j, best', eBest');
      et.FlipBit(j);
      FlipTwice(Flip1(bh, bits, i), PosOf(bits, j));
      j := j + 1;
    }
    et.FlipBit(i);
    FlipTwice(bh, PosOf(bits, i));
  }

  /** `greedyFourBitFast`: the best of the hash and every flip of four
      distinct bits; its bounds `bitCount()-3` and `bitCount()-1` cut out
      only tuples that could not be completed anyway. With fewer than three
      bits the unsigned bound `bitCount()-3` wraps and a flip goes out of
      range. */
  method GreedyFourBitFast(bh: BitHash, problem: seq<BitVec>) returns (best: BitHash)
    requires Ready(bh, problem) && TotalBits(bh.tables) >= 3
    ensures Score(best, problem) <= Score(bh, problem)
    ensures best == bh || exists p: (nat, nat), q: (nat, nat), r: (nat, nat), t: (nat, nat) |
      Before(bh.tables, p, q) && Before(bh.tables, q, r) && Before(bh.tables, r, t) ::
      best == FlipAt(FlipAt(FlipAt(FlipAt(bh, p), q), r), t)
    ensures forall p: (nat, nat), q: (nat, nat), r: (nat, nat), t: (nat, nat) |
      Before(bh.tables, p, q) && Before(bh.tables, q, r) && Before(bh.tables, r, t) ::
      Score(best, problem) <= Score(FlipAt(FlipAt(FlipAt(FlipAt(bh, p), q), r), t), problem)
  {
    var et := new EntryToKey(bh, problem);
    ghost var bits := et.bits;
    var eBest := et.Eval();
    best := bh;
    var i := 0;
    while i < et.BitCount() - 3
      invariant et.Valid() && et.bh == bh && et.ks == problem && et.bits == bits
      invariant i <= |bits| - 3
      invariant eBest == Score(best, problem) <= Score(bh, problem)
      invariant Near4(bh, bits, best) && Tried4(bh, problem, bits, eBest, i, 0, 0, 0)
    {
      best, eBest := FourBitMiddle(et, bh, bits, i, best, eBest);
      i := i + 1;
    }
    FourFlipsCovered(bh, problem, bits, best, i);
    NearFour(bh, problem, bits, best);
  }
}
