// Randomised local search and path relinking over the entry-to-key
// evaluator: `randomised_greedy` and `relink_path`.

module Relink {
  import opened BitVectors
  import opened BitHashes
  import opened Anneal

  // ---------------------------------------------------------------------
  // The random generator
  //
  // `solve_context::rng()` is a stream of unsigned draws: `rand(n)` is the
  // n-th draw. `udist(urng)` hands out reals, here `uniform(n)` for the n-th
  // round of `randomised_greedy`.

  // ---------------------------------------------------------------------
  // Moves: (score after the flip, bit), ordered as `std::pair` orders them

  type Move = (nat, nat)

  predicate MoveLe(a: Move, b: Move)
  {
    a.0 < b.0 || (a.0 == b.0 && a.1 <= b.1)
  }

  predicate Sorted(ms: seq<Move>)
  {
    forall i, j | 0 <= i < j < |ms| :: MoveLe(ms[i], ms[j])
  }

  function Insert(m: Move, ms: seq<Move>): seq<Move>
  {
    if |ms| == 0 then [m]
    else if MoveLe(m, ms[0]) then [m] + ms
    else [ms[0]] + Insert(m, ms[1..])
  }

  /** `std::sort` over the moves, written as an insertion sort. */
  function SortMoves(ms: seq<Move>): seq<Move>
  {
    if |ms| == 0 then [] else Insert(ms[0], SortMoves(ms[1..]))
  }

  lemma {:induction false} InsertSorted(m: Move, ms: seq<Move>)
    requires Sorted(ms)
    ensures Sorted(Insert(m, ms))
    ensures multiset(Insert(m, ms)) == multiset(ms) + multiset{m}
    decreases |ms|
  {
    if |ms| == 0 {
    } else if MoveLe(m, ms[0]) {
    } else {
      var rest := Insert(m, ms[1..]);
      InsertSorted(m, ms[1..]);
      assert ms == [ms[0]] + ms[1..];
      forall x | x in rest
        ensures MoveLe(ms[0], x)
      {
        assert x in multiset(rest);
        if x != m {
          assert x in multiset(ms[1..]);
          var j :| 0 <= j < |ms[1..]| && ms[1..][j] == x;
          assert ms[j + 1] == x;
        }
      }
    }
  }

  /** The sort orders the moves and keeps exactly the moves it was given. */
  lemma {:induction false} SortMovesCorrect(ms: seq<Move>)
    ensures Sorted(SortMoves(ms)) && multiset(SortMoves(ms)) == multiset(ms)
    decreases |ms|
  {
    if |ms| > 0 {
      SortMovesCorrect(ms[1..]);
      InsertSorted(ms[0], SortMoves(ms[1..]));
      assert ms == [ms[0]] + ms[1..];
    }
  }

  /** The front of a sorted list of moves has the least score and the
      back the greatest. */
  lemma SortedEnds(ms: seq<Move>)
    requires Sorted(ms) && |ms| > 0
    ensures forall k | 0 <= k < |ms| :: ms[0].0 <= ms[k].0 <= ms[|ms| - 1].0
  {
    forall k | 0 <= k < |ms|
      ensures ms[0].0 <= ms[k].0 <= ms[|ms| - 1].0
    {
      if 0 < k {
        assert MoveLe(ms[0], ms[k]);
      }
      if k < |ms| - 1 {
        assert MoveLe(ms[k], ms[|ms| - 1]);
      }
    }
  }

  /** The moves whose score is not above `cut`, in their order. */
  function KeepWithin(ms: seq<Move>, cut: real): seq<Move>
  {
    if |ms| == 0 then []
    else (if ms[0].0 as real > cut then [] else [ms[0]]) + KeepWithin(ms[1..], cut)
  }

  /** A move survives the cut exactly when it was there and its score is
      not above the cut. */
  lemma {:induction false} KeepWithinMembers(ms: seq<Move>, cut: real, m: Move)
    ensures m in KeepWithin(ms, cut) <==> m in ms && m.0 as real <= cut
    decreases |ms|
  {
    if |ms| > 0 {
      KeepWithinMembers(ms[1..], cut, m);
      assert ms == [ms[0]] + ms[1..];
    }
  }

  lemma {:induction false} KeepWithinSplit(ms: seq<Move>, i: nat, cut: real)
    requires i < |ms|
    ensures KeepWithin(ms[i..], cut)
         == (if ms[i].0 as real > cut then [] else [ms[i]]) + KeepWithin(ms[i + 1..], cut)
  {
    assert ms[i..][1..] == ms[i + 1..];
  }

  /** The pruning loop of `randomised_greedy`: from the back down to the
      second move, every move scoring above `cut` is erased; the front
      always stays. */
  method Prune(moves: seq<Move>, cut: real) returns (kept: seq<Move>)
    requires |moves| > 0
    ensures kept == [moves[0]] + KeepWithin(moves[1..], cut)
  {
    kept := moves;
    var i := |moves| - 1;
    assert moves[i + 1..] == [];
    while i > 0
      invariant 0 <= i < |moves|
      invariant kept == moves[..i + 1] + KeepWithin(moves[i + 1..], cut)
    {
      KeepWithinSplit(moves, i, cut);
      if kept[i].0 as real > cut {
        assert kept[..i] == moves[..i];
        kept := kept[..i] + kept[i + 1..];
      } else {
        assert moves[..i + 1] == moves[..i] + [moves[i]];
      }
      i := i - 1;
    }
  }

  // ---------------------------------------------------------------------
  // Scoring single-bit moves

  /** Bit `d` flipped, scored. */
  function MoveAt(bh: BitHash, ks: seq<BitVec>, bits: seq<BitInfo>, d: nat): Move
    requires d < |bits|
  {
    (Score(FlipAt(bh, Pos(bits[d])), ks), d)
  }

  /** `m` records a bit and the score the hash has with that bit flipped. */
  predicate Scored(bh: BitHash, ks: seq<BitVec>, bits: seq<BitInfo>, m: Move)
  {
    m.1 < |bits| && m == MoveAt(bh, ks, bits, m.1)
  }

  /** Starting the scan at `offset` still reaches every bit. */
  lemma RotationCovers(n: nat, offset: nat, d: nat)
    requires offset < n && d < n
    ensures var i := (d + n - offset) % n; i < n && (i + offset) % n == d
  {
    if d >= offset {
      assert (d + n - offset) % n == d - offset;
    } else {
      assert (d + n - offset) % n == d + n - offset;
    }
  }

  /** Flip bit `d`, score it, flip it back. */
  method ProbeScore(et: EntryToKey, d: nat) returns (e: nat)
    requires et.Valid() && d < |et.bits|
    modifies et
    ensures et.Valid() && et.bh == old(et.bh) && et.bits == old(et.bits)
    ensures e == Score(FlipAt(et.bh, Pos(et.bits[d])), et.ks)
  {
    ghost var bh0 := et.bh;
    et.FlipBit(d);
    e := et.Eval();
    et.FlipBit(d);
    FlipTwice(bh0, Pos(et.bits[d]));
  }

  /** The first `|moves|` moves of the scan that starts at bit `offset`. */
  ghost predicate ScanFrom(bh: BitHash, ks: seq<BitVec>, bits: seq<BitInfo>, offset: nat, moves: seq<Move>)
  {
    && 0 < |bits| && |moves| <= |bits|
    && forall k | 0 <= k < |moves| :: moves[k] == MoveAt(bh, ks, bits, (k + offset) % |bits|)
  }

  lemma ScanFromSnoc(bh: BitHash, ks: seq<BitVec>, bits: seq<BitInfo>, offset: nat, moves: seq<Move>, e: nat, d: nat)
    requires ScanFrom(bh, ks, bits, offset, moves) && |moves| < |bits|
    requires d == (|moves| + offset) % |bits| && e == Score(FlipAt(bh, Pos(bits[d])), ks)
    ensures ScanFrom(bh, ks, bits, offset, moves + [(e, d)])
  {
  }

  /** One move of the scan. */
  method ScanStep(et: EntryToKey, offset: nat, moves: seq<Move>) returns (moves': seq<Move>)
    requires et.Valid() && ScanFrom(et.bh, et.ks, et.bits, offset, moves) && |moves| < |et.bits|
    modifies et
    ensures et.Valid() && et.bh == old(et.bh) && et.bits == old(et.bits)
    ensures ScanFrom(et.bh, et.ks, et.bits, offset, moves') && |moves'| == |moves| + 1
  {
    var d: nat := (|moves| + offset) % et.BitCount();
    var e := ProbeScore(et, d);
    ScanFromSnoc(et.bh, et.ks, et.bits, offset, moves, e, d);
    moves' := moves + [(e, d)];
  }

  /** The move scan of `randomised_greedy`: every bit, starting at bit
      `offset` and wrapping round, flipped, scored and flipped back. */
  method ScanMoves(et: EntryToKey, offset: nat) returns (moves: seq<Move>)
    requires et.Valid() && offset < |et.bits|
    modifies et
    ensures et.Valid() && et.bh == old(et.bh) && et.bits == old(et.bits)
    ensures |moves| == |et.bits|
    ensures forall i | 0 <= i < |moves| :: moves[i] == MoveAt(et.bh, et.ks, et.bits, (i + offset) % |et.bits|)
  {
    moves := [];
    var i := 0;
    while i < et.BitCount()
      invariant et.Valid() && et.bh == old(et.bh) && et.bits == old(et.bits)
      invariant i == |moves| && ScanFrom(et.bh, et.ks, et.bits, offset, moves)
    {
      moves := ScanStep(et, offset, moves);
      i := i + 1;
    }
  }

  /** Every bit has its move in the scan, and every move of the scan is
      scored against the hash it was taken from. */
  lemma ScanComplete(bh: BitHash, ks: seq<BitVec>, bits: seq<BitInfo>, offset: nat, moves: seq<Move>)
    requires offset < |bits| && |moves| == |bits|
    requires forall i | 0 <= i < |moves| :: moves[i] == MoveAt(bh, ks, bits, (i + offset) % |bits|)
    ensures forall m | m in moves :: Scored(bh, ks, bits, m)
    ensures forall d | 0 <= d < |bits| :: MoveAt(bh, ks, bits, d) in moves
  {
    forall d | 0 <= d < |bits|
      ensures MoveAt(bh, ks, bits, d) in moves
    {
      RotationCovers(|bits|, offset, d);
      var i := (d + |bits| - offset) % |bits|;
      assert moves[i] == MoveAt(bh, ks, bits, d);
    }
  }

  /** Sorting and pruning keep only scored moves, the front has the
      least score of the scan and the back the greatest. */
  lemma RankedMoves(bh: BitHash, ks: seq<BitVec>, bits: seq<BitInfo>, moves: seq<Move>, sorted: seq<Move>)
    requires sorted == SortMoves(moves) && |moves| > 0
    requires forall m | m in moves :: Scored(bh, ks, bits, m)
    ensures |sorted| == |moves| && Sorted(sorted)
    ensures forall m | m in sorted :: Scored(bh, ks, bits, m)
    ensures forall m | m in moves :: sorted[0].0 <= m.0 <= sorted[|sorted| - 1].0
  {
    SortMovesCorrect(moves);
    assert |sorted| == |multiset(sorted)| == |multiset(moves)| == |moves|;
    forall m | m in sorted
      ensures Scored(bh, ks, bits, m)
    {
      assert m in multiset(sorted);
    }
    SortedEnds(sorted);
    forall m | m in moves
      ensures sorted[0].0 <= m.0 <= sorted[|sorted| - 1].0
    {
      assert m in multiset(moves);
      var k :| 0 <= k < |sorted| && sorted[k] == m;
    }
  }

  // ---------------------------------------------------------------------
  // randomised_greedy

  /** The hash after the opening coin flips: bit `b` is flipped when draw
      `b` is odd. */
  function CoinFlips(bh: BitHash, bits: seq<BitInfo>, rand: nat -> nat, n: nat): BitHash
    requires n <= |bits|
  {
    if n == 0 then bh
    else
      var prev := CoinFlips(bh, bits, rand, n - 1);
      if rand(n - 1) % 2 == 1 then FlipAt(prev, Pos(bits[n - 1])) else prev
  }

  lemma FlipShape(a: BitHash, b: BitHash, p: (nat, nat))
    requires BitHashes.WellFormed(a) && Concrete(a) && SameShape(a, b)
    ensures SameShape(FlipAt(a, p), b)
  {
    FlipKeepsShape(a, p);
  }

  /** The opening loop of `randomised_greedy`: bit `i` is flipped when
      draw `i` is odd. */
  method FlipCoins(et: EntryToKey, rand: nat -> nat)
    requires et.Valid()
    modifies et
    ensures et.Valid() && et.bits == old(et.bits) && SameShape(et.bh, old(et.bh))
    ensures et.bh == CoinFlips(old(et.bh), old(et.bits), rand, |old(et.bits)|)
  {
    ghost var bh0, bits0 := et.bh, et.bits;
    var i := 0;
    while i < et.BitCount()
      invariant et.Valid() && et.bits == bits0 && 0 <= i <= |bits0|
      invariant et.bh == CoinFlips(bh0, bits0, rand, i) && SameShape(et.bh, bh0)
    {
      if rand(i) % 2 == 1 {
        FlipKeepShape(et, bh0, i);
      }
      i := i + 1;
    }
  }

  /** `flipBit(i)`, seen from the hash alone: the entry flips and the
      shape stays that of `bh0`. */
  method FlipKeepShape(et: EntryToKey, ghost bh0: BitHash, i: nat)
    requires et.Valid() && i < |et.bits| && SameShape(et.bh, bh0)
    modifies et
    ensures et.Valid() && et.bits == old(et.bits) && SameShape(et.bh, bh0)
    ensures et.bh == FlipAt(old(et.bh), Pos(old(et.bits)[i]))
  {
    FlipShape(et.bh, bh0, Pos(et.bits[i]));
    et.FlipBit(i);
  }

  /** Every move, sorted: the front is the best single-bit move of the
      current hash. */
  method RankMoves(et: EntryToKey, offset: nat) returns (moves: seq<Move>)
    requires et.Valid() && offset < |et.bits|
    modifies et
    ensures et.Valid() && et.bh == old(et.bh) && et.bits == old(et.bits)
    ensures |moves| == |et.bits| && Sorted(moves)
    ensures forall m | m in moves :: Scored(et.bh, et.ks, et.bits, m)
    ensures forall d | 0 <= d < |et.bits| :: moves[0].0 <= MoveAt(et.bh, et.ks, et.bits, d).0 <= moves[|moves| - 1].0
  {
    var scan := ScanMoves(et, offset);
    ScanComplete(et.bh, et.ks, et.bits, offset, scan);
    moves := SortMoves(scan);
    RankedMoves(et.bh, et.ks, et.bits, scan, moves);
  }

  /** The moves a round may take: the best one, and every other move whose
      score is not above the cut. */
  function Survivors(moves: seq<Move>, cut: real): (r: seq<Move>)
    requires |moves| > 0
    ensures |r| > 0
  {
    [moves[0]] + KeepWithin(moves[1..], cut)
  }

  /** The end of a round: prune by the cut, then flip the survivor that
      draw `r` selects. */
  method RandomStep(et: EntryToKey, ghost bh0: BitHash, moves: seq<Move>, cut: real, r: nat)
    returns (taken: Move)
    requires et.Valid() && SameShape(et.bh, bh0) && |moves| > 0
    requires forall m | m in moves :: Scored(et.bh, et.ks, et.bits, m)
    modifies et
    ensures et.Valid() && et.bits == old(et.bits) && SameShape(et.bh, bh0)
    ensures taken == Survivors(moves, cut)[r % |Survivors(moves, cut)|]
    ensures taken in moves && (taken == moves[0] || taken.0 as real <= cut) && taken.1 < |et.bits|
    ensures et.bh == FlipAt(old(et.bh), Pos(et.bits[taken.1])) && Score(et.bh, et.ks) == taken.0
  {
    var kept := Prune(moves, cut);
    var sel := r % |kept|;
    taken := kept[sel];
    if sel > 0 {
      assert taken in KeepWithin(moves[1..], cut);
      KeepWithinMembers(moves[1..], cut, taken);
    }
    assert taken in moves;
    FlipShape(et.bh, bh0, Pos(et.bits[taken.1]));
    et.FlipBit(taken.1);
  }

  /** One round of `randomised_greedy`'s walk from the scan at `offset`:
      the best move beats the best score so far or counts one more round
      without an improvement; unless that ends the walk, the survivor that
      draw `r` selects under the cut `alpha * (eMax - eMin)` is taken. */
  method GreedyRound(et: EntryToKey, ghost bh0: BitHash, eBest: nat, bhBest: BitHash, noIncrease: nat,
                     offset: nat, alpha: real, r: nat)
    returns (eBest': nat, bhBest': BitHash, noIncrease': nat, stop: bool)
    requires et.Valid() && SameShape(et.bh, bh0) && offset < |et.bits|
    requires Ready(bhBest, et.ks) && SameShape(bhBest, bh0)
    requires eBest == Score(bhBest, et.ks) && eBest <= Score(et.bh, et.ks)
    modifies et
    ensures et.Valid() && et.bits == old(et.bits) && SameShape(et.bh, bh0)
    ensures Ready(bhBest', et.ks) && SameShape(bhBest', bh0) && eBest' == Score(bhBest', et.ks)
    ensures eBest' <= eBest && eBest' <= Score(et.bh, et.ks)
    ensures eBest' < eBest ==> noIncrease' == 0 && !stop
    ensures eBest' == eBest ==> noIncrease' == noIncrease + 1 && (stop <==> noIncrease' > 1000)
  {
    var moves := RankMoves(et, offset);
    assert moves[0] in moves;
    var eMin := moves[0].0;
    var eMax := moves[|moves| - 1].0;
    eBest', bhBest' := eBest, bhBest;
    if eMin < eBest {
      eBest' := eMin;
      ghost var here := et.bh;
      et.FlipBit(moves[0].1);
      bhBest' := et.bh;
      FlipShape(here, bh0, Pos(et.bits[moves[0].1]));
      et.FlipBit(moves[0].1);
      FlipTwice(here, Pos(et.bits[moves[0].1]));
      noIncrease' := 0;
    } else {
      noIncrease' := noIncrease + 1;
    }
    stop := eMin >= eBest' && noIncrease' > 1000;
    if !stop {
      var taken := RandomStep(et, bh0, moves, alpha * ((eMax - eMin) as real), r);
    }
  }

  /** `randomised_greedy`: flips a random subset of the bits, then walks
      by single-bit moves, keeping the best hash seen. It stops at score
      zero, or after more than 1000 rounds in a row without an
      improvement, and leaves the best hash seen in the evaluator. Draws
      `0 .. bitCount - 1` are the coins; each round then takes two draws,
      for the scan's start and for the survivor. */
  method RandomisedGreedy(et: EntryToKey, rand: nat -> nat, uniform: nat -> real)
    requires et.Valid()
    requires |et.bits| > 0 || Score(et.bh, et.ks) == 0
    modifies et
    ensures et.Valid() && SameShape(et.bh, old(et.bh))
    ensures Score(et.bh, et.ks) <= Score(CoinFlips(old(et.bh), old(et.bits), rand, |old(et.bits)|), et.ks)
  {
    ghost var bh0, bits0 := et.bh, et.bits;
    FlipCoins(et, rand);
    ghost var start := et.bh;
    var draw := et.BitCount();
    var eBest := et.Eval();
    var bhBest := et.bh;
    var round := 0;
    var noIncrease := 0;
    while eBest != 0
      invariant et.Valid() && et.bits == bits0 && SameShape(et.bh, bh0)
      invariant Ready(bhBest, et.ks) && SameShape(bhBest, bh0)
      invariant eBest == Score(bhBest, et.ks) && eBest <= Score(start, et.ks) && eBest <= Score(et.bh, et.ks)
      invariant |bits0| > 0 || eBest == 0
      invariant noIncrease <= 1000
      decreases eBest, 1000 - noIncrease
    {
      var offset := rand(draw) % et.BitCount();
      var stop;
      eBest, bhBest, noIncrease, stop := GreedyRound(et, bh0, eBest, bhBest, noIncrease, offset, uniform(round), rand(draw + 1));
      draw := draw + 2;
      if stop {
        break;
      }
      round := round + 1;
    }
    et.bh := bhBest;
    et.Sync();
  }

  // ---------------------------------------------------------------------
  // relink_path

  /** Entry `p` holds different values in the two hashes. */
  predicate Differs(a: BitHash, b: BitHash, p: (nat, nat))
  {
    InLut(a.tables, p) && InLut(b.tables, p) && a.tables[p.0].lut[p.1] != b.tables[p.0].lut[p.1]
  }

  /** The bits whose entries differ from `dst`: the rest of the path. */
  function DiffSet(bh: BitHash, dst: BitHash, bits: seq<BitInfo>): set<nat>
  {
    set b: nat | b < |bits| && Differs(bh, dst, Pos(bits[b]))
  }

  /** `getDifferenceIndices(dst)`: the bits whose entries differ from
      `dst`, in increasing order. */
  method DifferenceIndices(et: EntryToKey, dst: BitHash) returns (ds: seq<nat>)
    ensures forall i, j | 0 <= i < j < |ds| :: ds[i] < ds[j]
    ensures forall b: nat :: b in ds <==> b in DiffSet(et.bh, dst, et.bits)
  {
    var bh, bits := et.bh, et.bits;
    ds := [];
    var b := 0;
    while b < |bits|
      invariant 0 <= b <= |bits|
      invariant forall i, j | 0 <= i < j < |ds| :: ds[i] < ds[j]
      invariant forall i | 0 <= i < |ds| :: ds[i] < b
      invariant forall c: nat :: c in ds <==> c < b && Differs(bh, dst, Pos(bits[c]))
    {
      if Differs(bh, dst, Pos(bits[b])) {
        ds := ds + [b];
      }
      b := b + 1;
    }
  }

  /** Flipping a bit on the path takes exactly that bit off the path: the
      walk gets one step shorter. */
  lemma FlipShortens(bh: BitHash, dst: BitHash, ks: seq<BitVec>, bits: seq<BitInfo>, i: nat)
    requires BitsMatch(bh, ks, bits) && Concrete(bh) && Concrete(dst) && SameShape(bh, dst)
    requires i in DiffSet(bh, dst, bits)
    ensures DiffSet(FlipAt(bh, Pos(bits[i])), dst, bits) == DiffSet(bh, dst, bits) - {i}
    ensures |DiffSet(FlipAt(bh, Pos(bits[i])), dst, bits)| == |DiffSet(bh, dst, bits)| - 1
  {
    var p := Pos(bits[i]);
    var f := FlipAt(bh, p);
    forall b: nat | b < |bits|
      ensures Differs(f, dst, Pos(bits[b])) <==> b != i && Differs(bh, dst, Pos(bits[b]))
    {
      var q := Pos(bits[b]);
      if b != i {
        assert BitIndex(bh.tables, q) != BitIndex(bh.tables, p);
        assert f.tables[q.0].lut[q.1] == bh.tables[q.0].lut[q.1];
      }
    }
  }

  /** With nothing left on the path the walk has arrived. */
  lemma PathEnd(bh: BitHash, dst: BitHash, ks: seq<BitVec>, bits: seq<BitInfo>)
    requires BitsMatch(bh, ks, bits) && SameShape(bh, dst) && DiffSet(bh, dst, bits) == {}
    ensures bh == dst
  {
    forall t | 0 <= t < |bh.tables|
      ensures bh.tables[t] == dst.tables[t]
    {
      forall o | 0 <= o < |bh.tables[t].lut|
        ensures bh.tables[t].lut[o] == dst.tables[t].lut[o]
      {
        BitsSlot(bh, ks, bits, (t, o));
        var b := BitIndex(bh.tables, (t, o));
        assert b !in DiffSet(bh, dst, bits);
      }
    }
  }

  /** A score, or `DBL_MAX`, which stands above every score. */
  datatype Ceiling = Value(n: nat) | DblMax

  predicate Below(e: nat, c: Ceiling)
  {
    c.DblMax? || e < c.n
  }

  /** The score-keeping of `relink_path`'s inner loop for a probe of bit
      `d` scoring `e`: a new least score starts the ties afresh, an equal
      one joins them. */
  function Admit(e: nat, d: nat, best: Ceiling, flipBest: seq<nat>): (Ceiling, seq<nat>)
  {
    if Below(e, best) then (Value(e), [d])
    else if best == Value(e) then (best, flipBest + [d])
    else (best, flipBest)
  }

  /** After the first `i` bits on the path: `best` is their least flipped
      score and `flipBest` holds exactly those of them that reach it. */
  ghost predicate RoundSoFar(bh: BitHash, ks: seq<BitVec>, bits: seq<BitInfo>, ds: seq<nat>, i: nat,
                             best: Ceiling, flipBest: seq<nat>)
  {
    && i <= |ds|
    && (i > 0 <==> best.Value?)
    && (best.Value? ==> |flipBest| > 0)
    && (forall k | 0 <= k < i :: best.Value? && best.n <= Score(Flip1(bh, bits, ds[k]), ks))
    && (forall b | b in flipBest :: b in ds[..i] && best.Value? && Score(Flip1(bh, bits, b), ks) == best.n)
    && (forall k | 0 <= k < i :: best.Value? && Score(Flip1(bh, bits, ds[k]), ks) == best.n ==> ds[k] in flipBest)
  }

  lemma RoundStep(bh: BitHash, ks: seq<BitVec>, bits: seq<BitInfo>, ds: seq<nat>, i: nat,
                  best: Ceiling, flipBest: seq<nat>, e: nat, r: (Ceiling, seq<nat>))
    requires RoundSoFar(bh, ks, bits, ds, i, best, flipBest) && i < |ds|
    requires e == Score(Flip1(bh, bits, ds[i]), ks) && r == Admit(e, ds[i], best, flipBest)
    ensures RoundSoFar(bh, ks, bits, ds, i + 1, r.0, r.1)
  {
    assert ds[..i + 1] == ds[..i] + [ds[i]];
  }

  /** One probe of `relink_path`'s inner loop. */
  method PathProbe(et: EntryToKey, ghost ds: seq<nat>, i: nat, d: nat, best: Ceiling, flipBest: seq<nat>,
                   eTotal: nat, bTotal: BitHash)
    returns (best': Ceiling, flipBest': seq<nat>, eTotal': nat, bTotal': BitHash)
    requires et.Valid() && RoundSoFar(et.bh, et.ks, et.bits, ds, i, best, flipBest)
    requires i < |ds| && d == ds[i] && d < |et.bits|
    requires eTotal == Score(bTotal, et.ks) && Ready(bTotal, et.ks) && SameShape(bTotal, et.bh)
    requires best.Value? ==> eTotal <= best.n
    modifies et
    ensures et.Valid() && et.bh == old(et.bh) && et.bits == old(et.bits)
    ensures RoundSoFar(et.bh, et.ks, et.bits, ds, i + 1, best', flipBest')
    ensures eTotal' == Score(bTotal', et.ks) && eTotal' <= eTotal && Ready(bTotal', et.ks)
    ensures SameShape(bTotal', et.bh) && best'.Value? && eTotal' <= best'.n
  {
    ghost var bh0 := et.bh;
    et.FlipBit(d);
    var eCurr := et.Eval();
    RoundStep(bh0, et.ks, et.bits, ds, i, best, flipBest, eCurr, Admit(eCurr, d, best, flipBest));
    best', flipBest' := Admit(eCurr, d, best, flipBest).0, Admit(eCurr, d, best, flipBest).1;
    eTotal', bTotal' := eTotal, bTotal;
    if best'.Value? && best'.n < eTotal {
      eTotal' := best'.n;
      bTotal' := et.bh;
      FlipKeepsShape(bh0, Pos(et.bits[d]));
    }
    et.FlipBit(d);
    FlipTwice(bh0, Pos(et.bits[d]));
  }

  /** One round of `relink_path`: every bit still on the path is flipped,
      scored and flipped back. `flipBest` collects, in path order, every
      bit that ties for the least score `eBest`; whenever the round's best
      beats the best score of the whole walk, the hash that reached it is
      kept. */
  method ScanPath(et: EntryToKey, differences: seq<nat>, eTotal: nat, bTotal: BitHash)
    returns (eBest: nat, flipBest: seq<nat>, eTotal': nat, bTotal': BitHash)
    requires et.Valid() && |differences| > 0
    requires forall k | 0 <= k < |differences| :: differences[k] < |et.bits|
    requires eTotal == Score(bTotal, et.ks) && Ready(bTotal, et.ks) && SameShape(bTotal, et.bh)
    modifies et
    ensures et.Valid() && et.bh == old(et.bh) && et.bits == old(et.bits)
    ensures |flipBest| > 0
    ensures forall k | 0 <= k < |differences| :: eBest <= Score(Flip1(et.bh, et.bits, differences[k]), et.ks)
    ensures forall b | b in flipBest :: b in differences && Score(Flip1(et.bh, et.bits, b), et.ks) == eBest
    ensures forall k | 0 <= k < |differences| ::
      Score(Flip1(et.bh, et.bits, differences[k]), et.ks) == eBest ==> differences[k] in flipBest
    ensures eTotal' == Score(bTotal', et.ks) && eTotal' <= eTotal && eTotal' <= eBest
    ensures Ready(bTotal', et.ks) && SameShape(bTotal', et.bh)
  {
    var best := DblMax;
    flipBest := [];
    eTotal', bTotal' := eTotal, bTotal;
    var i := 0;
    while i < |differences|
      invariant et.Valid() && et.bh == old(et.bh) && et.bits == old(et.bits)
      invariant RoundSoFar(et.bh, et.ks, et.bits, differences, i, best, flipBest)
      invariant eTotal' == Score(bTotal', et.ks) && eTotal' <= eTotal
      invariant Ready(bTotal', et.ks) && SameShape(bTotal', et.bh)
      invariant best.Value? ==> eTotal' <= best.n
    {
      best, flipBest, eTotal', bTotal' := PathProbe(et, differences, i, differences[i], best, flipBest, eTotal', bTotal');
      i := i + 1;
    }
    assert differences[..i] == differences;
    eBest := best.n;
  }

  /** `relink_path`: walks from the evaluator's hash towards `dst`, one
      differing bit at a time, always taking (at random among ties) a bit
      whose flip scores least. It ends on `dst` and leaves in the
      evaluator the best hash met on the way. */
  method RelinkPath(et: EntryToKey, dst: BitHash, rand: nat -> nat)
    requires et.Valid() && Concrete(dst) && SameShape(et.bh, dst)
    modifies et
    ensures et.Valid() && SameShape(et.bh, old(et.bh))
    ensures Score(et.bh, et.ks) <= Score(old(et.bh), et.ks)
    ensures Score(et.bh, et.ks) <= Score(dst, et.ks)
  {
    ghost var bh0, bits0 := et.bh, et.bits;
    var eTotalBest := et.Eval();
    var bTotalBest := et.bh;
    var draw := 0;
    while true
      invariant et.Valid() && et.bits == bits0 && SameShape(et.bh, dst) && SameShape(et.bh, bh0)
      invariant Ready(bTotalBest, et.ks) && SameShape(bTotalBest, bh0)
      invariant eTotalBest == Score(bTotalBest, et.ks)
      invariant eTotalBest <= Score(bh0, et.ks) && eTotalBest <= Score(et.bh, et.ks)
      decreases |DiffSet(et.bh, dst, et.bits)|
    {
      var differences := DifferenceIndices(et, dst);
      if |differences| == 0 {
        PathEnd(et.bh, dst, et.ks, et.bits);
        break;
      }
      forall k | 0 <= k < |differences|
        ensures differences[k] < |et.bits|
      {
        assert differences[k] in DiffSet(et.bh, dst, et.bits);
      }
      ghost var here := et.bh;
      ghost var out := DiffSet(here, dst, bits0);
      var eBest, flipBest;
      eBest, flipBest, eTotalBest, bTotalBest := ScanPath(et, differences, eTotalBest, bTotalBest);
      var sel := rand(draw) % |flipBest|;
      draw := draw + 1;
      var i := flipBest[sel];
      assert i in flipBest;
      FlipShortens(here, dst, et.ks, bits0, i);
      FlipShape(here, dst, Pos(bits0[i]));
      FlipShape(here, bh0, Pos(bits0[i]));
      et.FlipBit(i);
    }

    et.bh := bTotalBest;
    et.Sync();
  }
}
