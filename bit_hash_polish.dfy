/** Polishing a near-solution: rank the keys that clash and the lut
    entries they read, unbind the most used entries plus a random share of
    the rest, and hand the partly bound hash to the SAT encoding. */
module Polish {
  import opened Wrappers
  import opened Arith
  import opened BitVectors
  import opened BitHashes
  import opened Cnf
  import opened CnfEncoding
  import opened CnfMeaning

  // ---------------------------------------------------------------------
  // Ranking by count

  /** What `std::sort` with `a.second > b.second` leaves: counts never
      increase along the list. */
  predicate CountsDescending<T>(r: seq<(T, nat)>)
  {
    forall i, j | 0 <= i < j < |r| :: r[i].1 >= r[j].1
  }

  /** `x` placed in front of the first entry with a smaller count. */
  function InsertByCount<T>(x: (T, nat), r: seq<(T, nat)>): seq<(T, nat)>
  {
    if r == [] || r[0].1 < x.1 then [x] + r else [r[0]] + InsertByCount(x, r[1..])
  }

  lemma {:induction false} InsertByCountKeeps<T>(x: (T, nat), r: seq<(T, nat)>)
    ensures multiset(InsertByCount(x, r)) == multiset(r) + multiset{x}
  {
    if r != [] && r[0].1 >= x.1 {
      InsertByCountKeeps(x, r[1..]);
      assert r == [r[0]] + r[1..];
    }
  }

  lemma {:induction false} InsertByCountBelow<T>(x: (T, nat), r: seq<(T, nat)>, c: nat)
    requires x.1 <= c && forall i | 0 <= i < |r| :: r[i].1 <= c
    ensures forall i | 0 <= i < |InsertByCount(x, r)| :: InsertByCount(x, r)[i].1 <= c
  {
    if r != [] && r[0].1 >= x.1 {
      InsertByCountBelow(x, r[1..], c);
    }
  }

  lemma {:induction false} InsertByCountSorted<T>(x: (T, nat), r: seq<(T, nat)>)
    requires CountsDescending(r)
    ensures CountsDescending(InsertByCount(x, r))
  {
    if r != [] && r[0].1 >= x.1 {
      var t := InsertByCount(x, r[1..]);
      InsertByCountSorted(x, r[1..]);
      InsertByCountBelow(x, r[1..], r[0].1);
      var s := [r[0]] + t;
      forall i, j | 0 <= i < j < |s| ensures s[i].1 >= s[j].1 {
        if i == 0 {
          assert s[j] == t[j - 1];
        } else {
          assert s[i] == t[i - 1] && s[j] == t[j - 1];
        }
      }
    }
  }

  /** The ranking: the entries of `r` ordered by descending count. One
      of the orders `std::sort` may leave, which does not fix the order of
      equal counts. */
  function SortByCount<T(==)>(r: seq<(T, nat)>): (s: seq<(T, nat)>)
    ensures multiset(s) == multiset(r) && CountsDescending(s)
  {
    if r == [] then []
    else
      var t := SortByCount(r[1..]);
      InsertByCountKeeps(r[0], t);
      InsertByCountSorted(r[0], t);
      assert r == [r[0]] + r[1..];
      InsertByCount(r[0], t)
  }

  /** No two entries of a ranking share a name. */
  ghost predicate DistinctNames<T>(r: seq<(T, nat)>)
  {
    forall i, j | 0 <= i < j < |r| :: r[i].0 != r[j].0
  }

  lemma {:induction false} InsertByCountDistinct<T>(x: (T, nat), r: seq<(T, nat)>)
    requires DistinctNames(r) && forall e | e in r :: e.0 != x.0
    ensures DistinctNames(InsertByCount(x, r))
  {
    if r != [] && r[0].1 >= x.1 {
      var t := InsertByCount(x, r[1..]);
      InsertByCountDistinct(x, r[1..]);
      InsertByCountKeeps(x, r[1..]);
      var s := [r[0]] + t;
      forall i, j | 0 <= i < j < |s| ensures s[i].0 != s[j].0 {
        if i == 0 {
          assert s[j] == t[j - 1];
          assert s[j] in multiset(t);
          if s[j] != x {
            var k :| 0 <= k < |r[1..]| && r[1..][k] == s[j];
            assert r[k + 1] == s[j];
          }
        } else {
          assert s[i] == t[i - 1] && s[j] == t[j - 1];
        }
      }
    }
  }

  /** Ranking keeps the names apart when they were apart. */
  lemma {:induction false} SortByCountDistinct<T>(r: seq<(T, nat)>)
    requires DistinctNames(r)
    ensures DistinctNames(SortByCount(r))
  {
    if r != [] {
      var t := SortByCount(r[1..]);
      SortByCountDistinct(r[1..]);
      forall e | e in t ensures e.0 != r[0].0 {
        assert e in multiset(r[1..]);
        var k :| 0 <= k < |r[1..]| && r[1..][k] == e;
        assert r[k + 1] == e;
      }
      InsertByCountDistinct(r[0], t);
    }
  }

  // ---------------------------------------------------------------------
  // find_clashing_keys

  predicate Distinct<T(==)>(s: seq<T>)
  {
    forall i, j | 0 <= i < j < |s| :: s[i] != s[j]
  }

  /** `bh(kv.first)` for each key in key order; a table that selects a
      don't care of a key makes its lookup throw. */
  function KeyHashes(bh: BitHash, ks: seq<BitVec>): (r: Result<seq<nat>>)
    requires BitHashes.WellFormed(bh) && forall i | 0 <= i < |ks| :: Decided(bh, ks[i])
    ensures r.Err? <==> exists i | 0 <= i < |ks| :: Eval(bh, ks[i]).Err?
    ensures r.Err? ==> r.msg == NonConcreteMsg
    ensures r.Ok? ==> |r.value| == |ks| && forall i | 0 <= i < |ks| :: Eval(bh, ks[i]) == Ok(r.value[i])
  {
    if exists i | 0 <= i < |ks| :: Eval(bh, ks[i]).Err? then Err(NonConcreteMsg)
    else Ok(seq(|ks|, i requires 0 <= i < |ks| => Eval(bh, ks[i]).value))
  }

  /** `hits[h]`: the keys among the first `n` whose hash is `h`, in key
      order. */
  function Bucket<K>(ks: seq<K>, hs: seq<nat>, h: nat, n: nat): seq<K>
    requires |hs| == |ks| && n <= |ks|
  {
    if n == 0 then [] else Bucket(ks, hs, h, n - 1) + (if hs[n - 1] == h then [ks[n - 1]] else [])
  }

  /** The count a map holds for `k`, 0 when absent, as `operator[]` reads
      it. */
  function Get<K>(c: map<K, nat>, k: K): nat
  {
    if k in c then c[k] else 0
  }

  /** `clashes[k]++` for each key of a bucket. The increments commute, so
      the map is the same in whichever order they are applied. */
  function Tally<K>(c: map<K, nat>, b: seq<K>): map<K, nat>
  {
    if b == [] then c
    else
      var c' := Tally(c, b[..|b| - 1]);
      c'[b[|b| - 1] := Get(c', b[|b| - 1]) + 1]
  }

  /** How often `k` occurs in `b`. */
  function Occ<K(==)>(b: seq<K>, k: K): nat
  {
    if b == [] then 0 else Occ(b[..|b| - 1], k) + (if b[|b| - 1] == k then 1 else 0)
  }

  /** `clashes` after the buckets below `n`: every key of an over-full
      bucket counted once per bucket. */
  function ClashCounts<K>(ks: seq<K>, hs: seq<nat>, n: nat): map<K, nat>
    requires |hs| == |ks|
  {
    if n == 0 then map[]
    else
      var b := Bucket(ks, hs, n - 1, |ks|);
      var c := ClashCounts(ks, hs, n - 1);
      if |b| > 1 then Tally(c, b) else c
  }

  /** The entries of `clashes` in map order, which is key order. */
  function Listed<K>(ks: seq<K>, c: map<K, nat>): seq<(K, nat)>
  {
    if ks == [] then []
    else
      var rest := Listed(ks[..|ks| - 1], c);
      var k := ks[|ks| - 1];
      if k in c then rest + [(k, c[k])] else rest
  }

  /** `find_clashing_keys`: the keys whose bucket holds another key, each
      with the number of over-full buckets holding it, ranked by that
      number. */
  function ClashingKeys(bh: BitHash, ks: seq<BitVec>): Result<seq<(BitVec, nat)>>
    requires BitHashes.WellFormed(bh) && forall i | 0 <= i < |ks| :: Decided(bh, ks[i])
  {
    var hs := KeyHashes(bh, ks);
    if hs.Err? then Err(hs.msg)
    else Ok(SortByCount(Listed(ks, ClashCounts(ks, hs.value, Pow2(bh.wO)))))
  }

  /** Key `i` shares its hash with another key. */
  predicate Clashing(hs: seq<nat>, i: nat)
    requires i < |hs|
  {
    exists j | 0 <= j < |hs| && j != i :: hs[j] == hs[i]
  }

  /** With distinct keys, key `i` sits in bucket `h` once when it is
      among the first `n` and hashes to `h`, and else not at all. */
  lemma {:induction false} BucketCount<K>(ks: seq<K>, hs: seq<nat>, h: nat, n: nat, i: nat)
    requires |hs| == |ks| && n <= |ks| && Distinct(ks) && i < |ks|
    ensures Occ(Bucket(ks, hs, h, n), ks[i]) == if i < n && hs[i] == h then 1 else 0
  {
    if n > 0 {
      BucketCount(ks, hs, h, n - 1, i);
      var b := Bucket(ks, hs, h, n - 1);
      if hs[n - 1] == h {
        assert (b + [ks[n - 1]])[..|b|] == b;
        assert n - 1 != i ==> ks[n - 1] != ks[i];
      } else {
        assert Bucket(ks, hs, h, n) == b + [] == b;
      }
    }
  }

  /** A bucket holds two keys exactly when two keys have its hash. */
  lemma {:induction false} BucketFull<K>(ks: seq<K>, hs: seq<nat>, h: nat, n: nat)
    requires |hs| == |ks| && n <= |ks|
    ensures |Bucket(ks, hs, h, n)| > 1 <==> exists i, j | 0 <= i < j < n :: hs[i] == h && hs[j] == h
    ensures |Bucket(ks, hs, h, n)| > 0 <==> exists i | 0 <= i < n :: hs[i] == h
  {
    if n > 0 {
      BucketFull(ks, hs, h, n - 1);
      if hs[n - 1] == h && |Bucket(ks, hs, h, n - 1)| > 0 {
        var i :| 0 <= i < n - 1 && hs[i] == h;
        assert hs[i] == h && hs[n - 1] == h;
      }
    }
  }

  /** Key `i`'s own bucket is over-full exactly when it clashes. */
  lemma BucketClash<K>(ks: seq<K>, hs: seq<nat>, i: nat)
    requires |hs| == |ks| && i < |ks|
    ensures |Bucket(ks, hs, hs[i], |ks|)| > 1 <==> Clashing(hs, i)
  {
    BucketFull(ks, hs, hs[i], |ks|);
    if Clashing(hs, i) {
      var j :| 0 <= j < |hs| && j != i && hs[j] == hs[i];
      if i < j {
        assert hs[i] == hs[i] && hs[j] == hs[i];
      } else {
        assert hs[j] == hs[i] && hs[i] == hs[i];
      }
    }
    if |Bucket(ks, hs, hs[i], |ks|)| > 1 {
      var a, a' :| 0 <= a < a' < |ks| && hs[a] == hs[i] && hs[a'] == hs[i];
      assert a != i ==> hs[a] == hs[i];
      assert a' != i ==> hs[a'] == hs[i];
    }
  }

  lemma {:induction false} TallyAt<K>(c: map<K, nat>, b: seq<K>, k: K)
    ensures Get(Tally(c, b), k) == Get(c, k) + Occ(b, k)
    ensures k in Tally(c, b) <==> k in c || k in b
  {
    if b != [] {
      TallyAt(c, b[..|b| - 1], k);
      assert b == b[..|b| - 1] + [b[|b| - 1]];
    }
  }

  /** A key is counted once when its bucket is below `n` and over-full,
      and only then appears. */
  lemma {:induction false} ClashCountsAt<K>(ks: seq<K>, hs: seq<nat>, n: nat, i: nat)
    requires |hs| == |ks| && Distinct(ks) && i < |ks|
    ensures Get(ClashCounts(ks, hs, n), ks[i]) == if hs[i] < n && Clashing(hs, i) then 1 else 0
    ensures ks[i] in ClashCounts(ks, hs, n) <==> hs[i] < n && Clashing(hs, i)
  {
    if n > 0 {
      ClashCountsAt(ks, hs, n - 1, i);
      var b := Bucket(ks, hs, n - 1, |ks|);
      var c := ClashCounts(ks, hs, n - 1);
      BucketCount(ks, hs, n - 1, |ks|, i);
      BucketClash(ks, hs, i);
      if |b| > 1 {
        TallyAt(c, b, ks[i]);
        OccIn(b, ks[i]);
      }
    }
  }

  lemma {:induction false} OccIn<K>(b: seq<K>, k: K)
    ensures k in b <==> Occ(b, k) > 0
  {
    if b != [] {
      OccIn(b[..|b| - 1], k);
      assert b == b[..|b| - 1] + [b[|b| - 1]];
    }
  }

  /** Only keys of the key list are counted. */
  lemma {:induction false} ClashCountsKeys<K>(ks: seq<K>, hs: seq<nat>, n: nat, k: K)
    requires |hs| == |ks| && k in ClashCounts(ks, hs, n)
    ensures k in ks
  {
    if n > 0 {
      var b := Bucket(ks, hs, n - 1, |ks|);
      var c := ClashCounts(ks, hs, n - 1);
      if |b| > 1 {
        TallyAt(c, b, k);
        if k !in c {
          BucketKeys(ks, hs, n - 1, |ks|, k);
        } else {
          ClashCountsKeys(ks, hs, n - 1, k);
        }
      } else {
        ClashCountsKeys(ks, hs, n - 1, k);
      }
    }
  }

  lemma {:induction false} BucketKeys<K>(ks: seq<K>, hs: seq<nat>, h: nat, n: nat, k: K)
    requires |hs| == |ks| && n <= |ks| && k in Bucket(ks, hs, h, n)
    ensures exists i | 0 <= i < n :: ks[i] == k
  {
    if k !in Bucket(ks, hs, h, n - 1) {
      assert ks[n - 1] == k;
    } else {
      BucketKeys(ks, hs, h, n - 1, k);
    }
  }

  /** The listing holds each counted key once, with its count. */
  lemma {:induction false} ListedMembers<K>(ks: seq<K>, c: map<K, nat>)
    requires Distinct(ks)
    ensures forall e | e in Listed(ks, c) :: e.0 in c && e.1 == c[e.0] && e.0 in ks
    ensures forall i | 0 <= i < |ks| && ks[i] in c :: (ks[i], c[ks[i]]) in Listed(ks, c)
    ensures DistinctNames(Listed(ks, c))
  {
    if ks != [] {
      var ks' := ks[..|ks| - 1];
      assert Distinct(ks');
      ListedMembers(ks', c);
      var k := ks[|ks| - 1];
      var rest := Listed(ks', c);
      assert forall e | e in rest :: e.0 in ks';
      assert k !in ks';
      forall i | 0 <= i < |ks| && ks[i] in c ensures (ks[i], c[ks[i]]) in Listed(ks, c) {
        if i < |ks'| {
          assert ks'[i] == ks[i];
        }
      }
    }
  }

  /** What `find_clashing_keys` returns: exactly the keys that share a
      bucket with another key, each once, each with count 1 (a key sits in
      one bucket), ranked; and the error of a lookup that reads a don't
      care. */
  lemma ClashingKeysMeaning(bh: BitHash, ks: seq<BitVec>)
    requires BitHashes.WellFormed(bh) && (forall i | 0 <= i < |ks| :: Decided(bh, ks[i])) && Distinct(ks)
    ensures var r := ClashingKeys(bh, ks);
      && (r.Err? <==> exists i | 0 <= i < |ks| :: Eval(bh, ks[i]).Err?)
      && (r.Err? ==> r.msg == NonConcreteMsg)
      && (r.Ok? ==> var hs := KeyHashes(bh, ks).value;
           && CountsDescending(r.value) && DistinctNames(r.value)
           && (forall e | e in r.value :: e.1 == 1 && exists i | 0 <= i < |ks| :: ks[i] == e.0 && Clashing(hs, i))
           && (forall i | 0 <= i < |ks| && Clashing(hs, i) :: (ks[i], 1) in r.value))
  {
    var r := ClashingKeys(bh, ks);
    if r.Ok? {
      var hs := KeyHashes(bh, ks).value;
      var c := ClashCounts(ks, hs, Pow2(bh.wO));
      var l := Listed(ks, c);
      ListedMembers(ks, c);
      SortByCountDistinct(l);
      assert multiset(r.value) == multiset(l);
      forall i | 0 <= i < |ks|
        ensures Get(c, ks[i]) == (if Clashing(hs, i) then 1 else 0)
        ensures ks[i] in c <==> Clashing(hs, i)
      {
        assert Eval(bh, ks[i]) == Ok(hs[i]);
        ClashCountsAt(ks, hs, Pow2(bh.wO), i);
      }
      forall e | e in r.value
        ensures e.1 == 1 && exists i | 0 <= i < |ks| :: ks[i] == e.0 && Clashing(hs, i)
      {
        assert e in multiset(l);
        var i :| 0 <= i < |ks| && ks[i] == e.0;
        assert ks[i] in c;
      }
      forall i | 0 <= i < |ks| && Clashing(hs, i) ensures (ks[i], 1) in r.value {
        assert (ks[i], c[ks[i]]) in multiset(l);
      }
    }
  }

  // ---------------------------------------------------------------------
  // find_clashing_entries

  /** Row `i` holds the address every table computes for key `i`, in
      table order. */
  function Addresses<K>(bh: BitHash, keys: seq<(BitVec, K)>): (rows: seq<seq<Result<nat>>>)
    ensures |rows| == |keys| && forall i | 0 <= i < |keys| :: |rows[i]| == |bh.tables|
    ensures forall i, u | 0 <= i < |keys| && 0 <= u < |bh.tables| :: rows[i][u] == KeyAddress(bh.tables[u], keys[i].0)
  {
    seq(|keys|, i requires 0 <= i < |keys| =>
      seq(|bh.tables|, u requires 0 <= u < |bh.tables| => KeyAddress(bh.tables[u], keys[i].0)))
  }

  /** Table `p.0` reads entry `p.1` by the address row `row`. */
  predicate Addressed(row: seq<Result<nat>>, p: Pair)
  {
    p.0 < |row| && row[p.0] == Ok(p.1)
  }

  /** The reference count of an entry: the summed counts of the first `n`
      keys that read it. */
  function Weight(rows: seq<seq<Result<nat>>>, cs: seq<nat>, p: Pair, n: nat): nat
    requires n <= |rows| == |cs|
  {
    if n == 0 then 0
    else Weight(rows, cs, p, n - 1) + (if Addressed(rows[n - 1], p) then cs[n - 1] else 0)
  }

  /** `hits[(ti, li)] += count` for the tables below `t`; an address that
      failed (a don't care at a selected position) throws. */
  function AddKey(m: map<Pair, nat>, row: seq<Result<nat>>, c: nat, t: nat): Result<map<Pair, nat>>
    requires t <= |row|
  {
    if t == 0 then Ok(m)
    else
      var r := AddKey(m, row, c, t - 1);
      var a := row[t - 1];
      if r.Err? then r
      else if a.Err? then Err(a.msg)
      else Ok(r.value[(t - 1, a.value) := Get(r.value, (t - 1, a.value)) + c])
  }

  /** `hits` after the first `n` keys. */
  function Hits(rows: seq<seq<Result<nat>>>, cs: seq<nat>, n: nat): Result<map<Pair, nat>>
    requires n <= |rows| == |cs|
  {
    if n == 0 then Ok(map[])
    else
      var r := Hits(rows, cs, n - 1);
      if r.Err? then r else AddKey(r.value, rows[n - 1], cs[n - 1], |rows[n - 1]|)
  }

  /** The entries of `hits` with table `t` and address below `n`, in
      address order. */
  function RowListing(hits: map<Pair, nat>, t: nat, n: nat): seq<(Pair, nat)>
  {
    if n == 0 then []
    else RowListing(hits, t, n - 1) + (if (t, n - 1) in hits then [((t, n - 1), hits[(t, n - 1)])] else [])
  }

  /** The entries of `hits` for the tables below `n` in map order: by
      table, then by address. */
  function Listing(bh: BitHash, hits: map<Pair, nat>, n: nat): seq<(Pair, nat)>
    requires n <= |bh.tables|
  {
    if n == 0 then []
    else Listing(bh, hits, n - 1) + RowListing(hits, n - 1, |bh.tables[n - 1].lut|)
  }

  /** The counts of a ranking, in order. */
  function Counts<T>(keys: seq<(T, nat)>): (cs: seq<nat>)
    ensures |cs| == |keys| && forall i | 0 <= i < |keys| :: cs[i] == keys[i].1
  {
    seq(|keys|, i requires 0 <= i < |keys| => keys[i].1)
  }

  /** `find_clashing_entries`: every (table, entry) read by some listed key,
      with the summed counts of the keys that read it, ranked by that sum. */
  function ClashingEntries(bh: BitHash, keys: seq<(BitVec, nat)>): Result<seq<(Pair, nat)>>
  {
    var hits := Hits(Addresses(bh, keys), Counts(keys), |keys|);
    if hits.Err? then Err(hits.msg)
    else Ok(SortByCount(Listing(bh, hits.value, |bh.tables|)))
  }

  /** Every address of a row below `t` succeeded. */
  ghost predicate Readable(row: seq<Result<nat>>, t: nat)
    requires t <= |row|
  {
    forall u | 0 <= u < t :: row[u].Ok?
  }

  lemma {:induction false} AddKeyErr(m: map<Pair, nat>, row: seq<Result<nat>>, c: nat, t: nat)
    requires t <= |row|
    ensures var r := AddKey(m, row, c, t);
      (r.Err? <==> !Readable(row, t)) && (r.Err? ==> exists u | 0 <= u < t :: row[u] == Err(r.msg))
  {
    if t > 0 {
      AddKeyErr(m, row, c, t - 1);
    }
  }

  lemma {:induction false} AddKeyAt(m: map<Pair, nat>, row: seq<Result<nat>>, c: nat, t: nat, p: Pair)
    requires t <= |row| && Readable(row, t)
    ensures var r := AddKey(m, row, c, t); var hit := p.0 < t && Addressed(row, p);
      && r.Ok?
      && Get(r.value, p) == Get(m, p) + (if hit then c else 0)
      && (p in r.value <==> p in m || hit)
  {
    if t > 0 {
      AddKeyAt(m, row, c, t - 1, p);
    }
  }

  lemma {:induction false} HitsErr(rows: seq<seq<Result<nat>>>, cs: seq<nat>, n: nat)
    requires n <= |rows| == |cs|
    ensures var r := Hits(rows, cs, n);
      && (r.Err? <==> exists i | 0 <= i < n :: !Readable(rows[i], |rows[i]|))
      && (r.Err? ==> exists i, u | 0 <= i < n && 0 <= u < |rows[i]| :: rows[i][u] == Err(r.msg))
  {
    if n > 0 {
      HitsErr(rows, cs, n - 1);
      var r := Hits(rows, cs, n - 1);
      if r.Ok? {
        AddKeyErr(r.value, rows[n - 1], cs[n - 1], |rows[n - 1]|);
      }
    }
  }

  lemma HitsReadable(rows: seq<seq<Result<nat>>>, cs: seq<nat>, n: nat)
    requires n <= |rows| == |cs| && Hits(rows, cs, n).Ok?
    ensures forall i | 0 <= i < n :: Readable(rows[i], |rows[i]|)
  {
    HitsErr(rows, cs, n);
  }

  /** Key `i` is one of the first `n` keys and reads entry `p`. */
  ghost predicate ReadBy(rows: seq<seq<Result<nat>>>, p: Pair, n: nat)
    requires n <= |rows|
  {
    exists i | 0 <= i < n :: Addressed(rows[i], p)
  }

  lemma {:induction false} HitsAt(rows: seq<seq<Result<nat>>>, cs: seq<nat>, n: nat, p: Pair)
    requires n <= |rows| == |cs| && forall i | 0 <= i < n :: Readable(rows[i], |rows[i]|)
    ensures var r := Hits(rows, cs, n);
      && r.Ok?
      && Get(r.value, p) == Weight(rows, cs, p, n)
      && (p in r.value <==> ReadBy(rows, p, n))
  {
    if n > 0 {
      HitsAt(rows, cs, n - 1, p);
      var r := Hits(rows, cs, n - 1);
      AddKeyAt(r.value, rows[n - 1], cs[n - 1], |rows[n - 1]|, p);
      if Addressed(rows[n - 1], p) {
        assert Addressed(rows[n - 1], p);
      } else if ReadBy(rows, p, n) {
        var i :| 0 <= i < n && Addressed(rows[i], p);
        assert i < n - 1;
      }
    }
  }

  lemma {:induction false} RowListingMembers(hits: map<Pair, nat>, t: nat, n: nat)
    ensures forall e | e in RowListing(hits, t, n) :: e.0 in hits && e.1 == hits[e.0] && e.0.0 == t && e.0.1 < n
    ensures forall a | 0 <= a < n && (t, a) in hits :: ((t, a), hits[(t, a)]) in RowListing(hits, t, n)
    ensures DistinctNames(RowListing(hits, t, n))
  {
    if n > 0 {
      RowListingMembers(hits, t, n - 1);
    }
  }

  /** The listing of the tables below `t`, joined with the row of table
      `t`, keeps its names apart. */
  lemma JoinDistinct(a: seq<(Pair, nat)>, b: seq<(Pair, nat)>, t: nat)
    requires DistinctNames(a) && DistinctNames(b)
    requires (forall x | x in a :: x.0.0 < t) && forall y | y in b :: y.0.0 == t
    ensures DistinctNames(a + b)
  {
    forall i, j | 0 <= i < j < |a + b| ensures (a + b)[i].0 != (a + b)[j].0 {
      if j < |a| {
        assert (a + b)[i] == a[i] && (a + b)[j] == a[j];
      } else if i < |a| {
        assert (a + b)[i] == a[i] && (a + b)[j] == b[j - |a|];
      } else {
        assert (a + b)[i] == b[i - |a|] && (a + b)[j] == b[j - |a|];
      }
    }
  }

  /** The listing holds only entries of `hits` in range, with their
      counts. */
  lemma {:induction false} ListingSound(bh: BitHash, hits: map<Pair, nat>, n: nat)
    requires n <= |bh.tables|
    ensures forall e | e in Listing(bh, hits, n) :: e.0 in hits && e.1 == hits[e.0] && InRange(bh, e.0)
  {
    if n > 0 {
      ListingSound(bh, hits, n - 1);
      var a := Listing(bh, hits, n - 1);
      var b := RowListing(hits, n - 1, |bh.tables[n - 1].lut|);
      RowListingMembers(hits, n - 1, |bh.tables[n - 1].lut|);
      forall e: (Pair, nat) | e in a + b ensures e.0 in hits && e.1 == hits[e.0] && InRange(bh, e.0) {
        JoinMember(a, b, e);
      }
    }
  }

  /** The listing holds every entry of `hits` in range with its count. */
  lemma {:induction false} ListingComplete(bh: BitHash, hits: map<Pair, nat>, n: nat)
    requires n <= |bh.tables|
    ensures forall p | p in hits && p.0 < n && InRange(bh, p) :: (p, hits[p]) in Listing(bh, hits, n)
  {
    if n > 0 {
      ListingComplete(bh, hits, n - 1);
      var a := Listing(bh, hits, n - 1);
      var b := RowListing(hits, n - 1, |bh.tables[n - 1].lut|);
      RowListingMembers(hits, n - 1, |bh.tables[n - 1].lut|);
      forall p | p in hits && p.0 < n && InRange(bh, p) ensures (p, hits[p]) in a + b {
        if p.0 == n - 1 {
          assert (n - 1, p.1) == p;
          assert (p, hits[p]) in b;
        } else {
          assert (p, hits[p]) in a;
        }
        JoinMember(a, b, (p, hits[p]));
      }
    }
  }

  /** The listing names each entry at most once. */
  lemma {:induction false} ListingDistinct(bh: BitHash, hits: map<Pair, nat>, n: nat)
    requires n <= |bh.tables|
    ensures (forall e | e in Listing(bh, hits, n) :: e.0.0 < n) && DistinctNames(Listing(bh, hits, n))
  {
    if n > 0 {
      ListingDistinct(bh, hits, n - 1);
      var a := Listing(bh, hits, n - 1);
      var b := RowListing(hits, n - 1, |bh.tables[n - 1].lut|);
      RowListingMembers(hits, n - 1, |bh.tables[n - 1].lut|);
      JoinDistinct(a, b, n - 1);
      forall e: (Pair, nat) | e in a + b ensures e.0.0 < n {
        JoinMember(a, b, e);
      }
    }
  }

  lemma JoinMember<T>(a: seq<T>, b: seq<T>, x: T)
    ensures x in a + b <==> x in a || x in b
  {
  }

  /** `find_clashing_entries` throws exactly when some table cannot
      address some listed key. */
  lemma ClashingEntriesErr(bh: BitHash, keys: seq<(BitVec, nat)>)
    ensures var r := ClashingEntries(bh, keys);
      && (r.Err? <==> exists i, u | 0 <= i < |keys| && 0 <= u < |bh.tables| :: KeyAddress(bh.tables[u], keys[i].0).Err?)
      && (r.Err? ==> r.msg == NonConcreteMsg)
  {
    var rows := Addresses(bh, keys);
    HitsErr(rows, Counts(keys), |keys|);
    var hits := Hits(rows, Counts(keys), |keys|);
    if hits.Err? {
      var i, u :| 0 <= i < |keys| && 0 <= u < |rows[i]| && rows[i][u] == Err(hits.msg);
      assert KeyAddress(bh.tables[u], keys[i].0).Err?;
    }
    if exists i, u | 0 <= i < |keys| && 0 <= u < |bh.tables| :: KeyAddress(bh.tables[u], keys[i].0).Err? {
      var i, u :| 0 <= i < |keys| && 0 <= u < |bh.tables| && KeyAddress(bh.tables[u], keys[i].0).Err?;
      assert !Readable(rows[i], |rows[i]|);
    }
  }

  /** The ranking `find_clashing_entries` returns names each entry
      once and is ordered by count. */
  lemma ClashingEntriesRanked(bh: BitHash, keys: seq<(BitVec, nat)>)
    requires ClashingEntries(bh, keys).Ok?
    ensures var r := ClashingEntries(bh, keys).value; CountsDescending(r) && DistinctNames(r)
  {
    HitsErr(Addresses(bh, keys), Counts(keys), |keys|);
    var hits := Hits(Addresses(bh, keys), Counts(keys), |keys|).value;
    ListingDistinct(bh, hits, |bh.tables|);
    SortByCountDistinct(Listing(bh, hits, |bh.tables|));
  }

  /** An entry of the ranked listing is an entry of `hits`, with its
      count. */
  lemma RankedEntry(bh: BitHash, hits: map<Pair, nat>, e: (Pair, nat))
    requires e in SortByCount(Listing(bh, hits, |bh.tables|))
    ensures e.0 in hits && e.1 == hits[e.0]
  {
    var l := Listing(bh, hits, |bh.tables|);
    assert e in multiset(l);
    ListingSound(bh, hits, |bh.tables|);
  }

  /** Each entry `find_clashing_entries` ranks is read by some key and
      carries the summed counts of the keys that read it. */
  lemma ClashingEntriesEntry(bh: BitHash, keys: seq<(BitVec, nat)>, e: (Pair, nat))
    requires ClashingEntries(bh, keys).Ok? && e in ClashingEntries(bh, keys).value
    ensures e.1 == Weight(Addresses(bh, keys), Counts(keys), e.0, |keys|) && ReadBy(Addresses(bh, keys), e.0, |keys|)
  {
    var rows := Addresses(bh, keys);
    var cs := Counts(keys);
    var hits := Hits(rows, cs, |keys|).value;
    RankedEntry(bh, hits, e);
    HitsReadable(rows, cs, |keys|);
    HitsAt(rows, cs, |keys|, e.0);
  }

  /** An entry key `i` reads is ranked, with its summed count. */
  lemma ClashingEntriesHas(bh: BitHash, keys: seq<(BitVec, nat)>, i: nat, p: Pair)
    requires BitHashes.WellFormed(bh) && ClashingEntries(bh, keys).Ok?
    requires i < |keys| && Addressed(Addresses(bh, keys)[i], p)
    ensures (p, Weight(Addresses(bh, keys), Counts(keys), p, |keys|)) in ClashingEntries(bh, keys).value
  {
    var rows := Addresses(bh, keys);
    var cs := Counts(keys);
    HitsReadable(rows, cs, |keys|);
    var hits := Hits(rows, cs, |keys|).value;
    var l := Listing(bh, hits, |bh.tables|);
    HitsAt(rows, cs, |keys|, p);
    assert p in hits by {
      assert Addressed(rows[i], p);
    }
    assert InRange(bh, p);
    ListingComplete(bh, hits, |bh.tables|);
    assert (p, hits[p]) in multiset(l);
  }

  /** What `find_clashing_entries` returns: each entry read by some key
      once, with the summed counts of the keys that read it, ranked by
      that sum; and the error of an address that reads a don't care. */
  lemma ClashingEntriesMeaning(bh: BitHash, keys: seq<(BitVec, nat)>)
    requires BitHashes.WellFormed(bh)
    ensures var r := ClashingEntries(bh, keys); var rows := Addresses(bh, keys);
      && (r.Err? <==> exists i, u | 0 <= i < |keys| && 0 <= u < |bh.tables| :: KeyAddress(bh.tables[u], keys[i].0).Err?)
      && (r.Err? ==> r.msg == NonConcreteMsg)
      && (r.Ok? ==>
           && CountsDescending(r.value) && DistinctNames(r.value)
           && (forall e | e in r.value :: e.1 == Weight(rows, Counts(keys), e.0, |keys|) && ReadBy(rows, e.0, |keys|))
           && (forall i, p | 0 <= i < |keys| && Addressed(rows[i], p) ::
                 (p, Weight(rows, Counts(keys), p, |keys|)) in r.value))
  {
    ClashingEntriesErr(bh, keys);
    if ClashingEntries(bh, keys).Ok? {
      ClashingEntriesRanked(bh, keys);
      forall e | e in ClashingEntries(bh, keys).value
        ensures e.1 == Weight(Addresses(bh, keys), Counts(keys), e.0, |keys|) && ReadBy(Addresses(bh, keys), e.0, |keys|)
      {
        ClashingEntriesEntry(bh, keys, e);
      }
      forall i, p | 0 <= i < |keys| && Addressed(Addresses(bh, keys)[i], p)
        ensures (p, Weight(Addresses(bh, keys), Counts(keys), p, |keys|)) in ClashingEntries(bh, keys).value
      {
        ClashingEntriesHas(bh, keys, i, p);
      }
    }
  }

  // ---------------------------------------------------------------------
  // bit_hash_polish: the parts of one attempt

  /** Same widths, same tables with the same selectors and lut sizes. */
  predicate SameShape(a: BitHash, b: BitHash)
  {
    && a.wI == b.wI && a.wO == b.wO && |a.tables| == |b.tables|
    && forall t | 0 <= t < |a.tables| ::
         a.tables[t].selectors == b.tables[t].selectors && |a.tables[t].lut| == |b.tables[t].lut|
  }

  /** `b` is `a` with some lut entries turned into don't cares. */
  predicate Relaxes(a: BitHash, b: BitHash)
  {
    && SameShape(a, b)
    && forall t, e | 0 <= t < |a.tables| && 0 <= e < |a.tables[t].lut| ::
         b.tables[t].lut[e] == a.tables[t].lut[e] || b.tables[t].lut[e] == -1
  }

  lemma RelaxesTransitive(a: BitHash, b: BitHash, c: BitHash)
    requires Relaxes(a, b) && Relaxes(b, c)
    ensures Relaxes(a, c)
  {
  }

  lemma RelaxesWellFormed(a: BitHash, b: BitHash)
    requires BitHashes.WellFormed(a) && Relaxes(a, b)
    ensures BitHashes.WellFormed(b)
  {
    forall t | 0 <= t < |b.tables| ensures TableWellFormed(b.tables[t]) {
      assert forall e | 0 <= e < |b.tables[t].lut| :: b.tables[t].lut[e] == a.tables[t].lut[e] || b.tables[t].lut[e] == -1;
    }
  }

  /** Making one entry a don't care relaxes the hash. */
  lemma UnbindRelaxes(bh: BitHash, t: nat, e: nat)
    requires InRange(bh, (t, e))
    ensures Relaxes(bh, SetEntry(bh, t, e, -1))
  {
  }

  /** The number of lut entries of the tables, `nEntries`. */
  function EntryCount(ts: seq<Table>): nat
  {
    if ts == [] then 0 else EntryCount(ts[..|ts| - 1]) + |ts[|ts| - 1].lut|
  }

  /** A table of a well-formed hash has at least one entry, so there are
      at least as many entries as tables. */
  lemma {:induction false} EntryCountAtLeast(ts: seq<Table>)
    requires forall t | 0 <= t < |ts| :: TableWellFormed(ts[t])
    ensures EntryCount(ts) >= |ts|
  {
    if ts != [] {
      EntryCountAtLeast(ts[..|ts| - 1]);
    }
  }

  /** The loop that sums the lut sizes. */
  method CountEntries(bh: BitHash) returns (n: nat)
    ensures n == EntryCount(bh.tables)
  {
    n := 0;
    var t := 0;
    while t < |bh.tables|
      invariant t <= |bh.tables| && n == EntryCount(bh.tables[..t])
    {
      assert bh.tables[..t + 1][..t] == bh.tables[..t];
      n := n + |bh.tables[t].lut|;
      t := t + 1;
    }
    assert bh.tables[..t] == bh.tables;
  }

  /** `bh` with the entries of the first `n` ranked positions made don't
      cares. */
  function UnbindFirst(bh: BitHash, cb: seq<(Pair, nat)>, n: nat): (r: BitHash)
    requires n <= |cb| && forall i | 0 <= i < |cb| :: InRange(bh, cb[i].0)
    ensures SameShape(bh, r)
  {
    if n == 0 then bh
    else
      var r := UnbindFirst(bh, cb, n - 1);
      SetEntry(r, cb[n - 1].0.0, cb[n - 1].0.1, -1)
  }

  /** The first `n` ranked positions are don't cares and every other entry
      is as it was. */
  lemma {:induction false} UnbindFirstAt(bh: BitHash, cb: seq<(Pair, nat)>, n: nat, t: nat, e: nat)
    requires n <= |cb| && (forall i | 0 <= i < |cb| :: InRange(bh, cb[i].0)) && InRange(bh, (t, e))
    ensures UnbindFirst(bh, cb, n).tables[t].lut[e] ==
      if exists i | 0 <= i < n :: cb[i].0 == (t, e) then -1 else bh.tables[t].lut[e]
  {
    if n > 0 {
      UnbindFirstAt(bh, cb, n - 1, t, e);
      if cb[n - 1].0 == (t, e) {
        assert cb[n - 1].0 == (t, e);
      }
    }
  }

  lemma {:induction false} UnbindFirstRelaxes(bh: BitHash, cb: seq<(Pair, nat)>, n: nat)
    requires n <= |cb| && forall i | 0 <= i < |cb| :: InRange(bh, cb[i].0)
    ensures Relaxes(bh, UnbindFirst(bh, cb, n))
  {
    if n > 0 {
      UnbindFirstRelaxes(bh, cb, n - 1);
      var r := UnbindFirst(bh, cb, n - 1);
      UnbindRelaxes(r, cb[n - 1].0.0, cb[n - 1].0.1);
      RelaxesTransitive(bh, r, SetEntry(r, cb[n - 1].0.0, cb[n - 1].0.1, -1));
    }
  }

  /** The first loop of an attempt: the ranked clash entries are made
      don't cares in rank order, counting each, until the count reaches
      `todo`; the count is checked after each entry, so at least one
      entry goes when there is one. */
  method UnbindClashes(bh: BitHash, cb: seq<(Pair, nat)>, todo: real) returns (res: BitHash, done: nat)
    requires forall i | 0 <= i < |cb| :: InRange(bh, cb[i].0)
    ensures done <= |cb| && res == UnbindFirst(bh, cb, done)
    ensures |cb| > 0 ==> done > 0
    ensures done == |cb| || done as real >= todo
    ensures done > 1 ==> ((done - 1) as real) < todo
  {
    res := bh;
    done := 0;
    while done < |cb|
      invariant done <= |cb| && res == UnbindFirst(bh, cb, done)
      invariant done > 0 ==> (done as real) < todo
    {
      var x := cb[done];
      res := SetEntry(res, x.0.0, x.0.1, -1);
      done := done + 1;
      if done as real >= todo {
        return;
      }
    }
  }

  /** One table's share of the random pass, from entry `e` on: each
      visited entry takes the next draw and becomes a don't care, counted,
      when the draw is below `extra`; the table is left as soon as the
      count reaches `todo`. Yields the lut, the count and the next draw. */
  function RandomLut(lut: seq<int>, e: nat, extra: real, todo: real, done: nat, udist: nat -> real, next: nat)
    : (r: (seq<int>, nat, nat))
    ensures |r.0| == |lut|
    decreases |lut| - e
  {
    if e >= |lut| then (lut, done, next)
    else
      var hit := udist(next) < extra;
      var lut' := if hit then lut[e := -1] else lut;
      var done' := if hit then done + 1 else done;
      if done' as real >= todo then (lut', done', next + 1)
      else RandomLut(lut', e + 1, extra, todo, done', udist, next + 1)
  }

  /** The random pass over the tables from table `k` on. */
  function RandomTables(bh: BitHash, k: nat, extra: real, todo: real, done: nat, udist: nat -> real, next: nat)
    : (r: (BitHash, nat, nat))
    ensures SameShape(bh, r.0)
    decreases |bh.tables| - k
  {
    if k >= |bh.tables| then (bh, done, next)
    else
      var l := RandomLut(bh.tables[k].lut, 0, extra, todo, done, udist, next);
      var t := bh.tables[k];
      RandomTables(bh.(tables := bh.tables[k := t.(lut := l.0)]), k + 1, extra, todo, l.1, udist, l.2)
  }

  /** What the random pass does to a table: only visited entries change,
      each to a don't care and only on a draw below `extra`; the count
      grows by the entries changed at most; a table is left early only
      once the count has reached `todo`, and at least one draw is taken
      when an entry remains. */
  lemma {:induction false} RandomLutMeaning(lut: seq<int>, e: nat, extra: real, todo: real, done: nat, udist: nat -> real, next: nat)
    requires e <= |lut|
    ensures var r := RandomLut(lut, e, extra, todo, done, udist, next);
      && r.2 - next <= |lut| - e && r.2 >= next && r.1 >= done
      && (e < |lut| ==> r.2 > next)
      && (r.2 - next < |lut| - e ==> r.1 as real >= todo)
      && r.1 - done <= r.2 - next
      && forall a | 0 <= a < |lut| :: r.0[a] == lut[a] ||
           (r.0[a] == -1 && e <= a < e + (r.2 - next) && udist(next + (a - e)) < extra)
    decreases |lut| - e
  {
    if e < |lut| {
      var hit := udist(next) < extra;
      var lut' := if hit then lut[e := -1] else lut;
      var done' := if hit then done + 1 else done;
      if done' as real < todo {
        RandomLutMeaning(lut', e + 1, extra, todo, done', udist, next + 1);
        var r := RandomLut(lut', e + 1, extra, todo, done', udist, next + 1);
        forall a | 0 <= a < |lut|
          ensures r.0[a] == lut[a] || (r.0[a] == -1 && e <= a < e + (r.2 - next) && udist(next + (a - e)) < extra)
        {
          if a == e && r.0[a] != lut[a] {
            assert r.0[a] == lut'[a];
          }
        }
      }
    }
  }

  /** The random pass over the tables from `k` on only makes entries
      don't cares, never lowers the count and never goes back in the
      draws; it takes one draw at least for every table of a well-formed
      hash. */
  lemma {:induction false} RandomTablesRelaxes(bh: BitHash, k: nat, extra: real, todo: real, done: nat, udist: nat -> real, next: nat)
    requires k <= |bh.tables|
    ensures var r := RandomTables(bh, k, extra, todo, done, udist, next);
      && Relaxes(bh, r.0) && r.1 >= done && r.2 >= next
      && (BitHashes.WellFormed(bh) ==> r.2 - next >= |bh.tables| - k)
    decreases |bh.tables| - k
  {
    if k < |bh.tables| {
      var t0 := bh.tables[k];
      var l := RandomLut(t0.lut, 0, extra, todo, done, udist, next);
      RandomLutMeaning(t0.lut, 0, extra, todo, done, udist, next);
      var bh' := bh.(tables := bh.tables[k := t0.(lut := l.0)]);
      RandomTablesRelaxes(bh', k + 1, extra, todo, l.1, udist, l.2);
      var r := RandomTables(bh', k + 1, extra, todo, l.1, udist, l.2);
      assert Relaxes(bh, bh');
      RelaxesTransitive(bh, bh', r.0);
      if BitHashes.WellFormed(bh) {
        assert |t0.lut| > 0;
        RelaxesWellFormed(bh, bh');
      }
    }
  }

  /** Each entry the random pass over the tables from `k` on changes
      belongs to a table from `k` on and took a draw below `extra`. */
  lemma {:induction false} RandomTablesDraws(bh: BitHash, k: nat, extra: real, todo: real, done: nat, udist: nat -> real, next: nat, t: nat, e: nat)
    requires k <= |bh.tables| && t < |bh.tables| && e < |bh.tables[t].lut|
    requires RandomTables(bh, k, extra, todo, done, udist, next).0.tables[t].lut[e] != bh.tables[t].lut[e]
    ensures k <= t && exists d | next <= d < RandomTables(bh, k, extra, todo, done, udist, next).2 :: udist(d) < extra
    decreases |bh.tables| - k
  {
    var t0 := bh.tables[k];
    var l := RandomLut(t0.lut, 0, extra, todo, done, udist, next);
    RandomLutMeaning(t0.lut, 0, extra, todo, done, udist, next);
    var bh' := bh.(tables := bh.tables[k := t0.(lut := l.0)]);
    var r := RandomTables(bh', k + 1, extra, todo, l.1, udist, l.2);
    RandomTablesRelaxes(bh', k + 1, extra, todo, l.1, udist, l.2);
    if r.0.tables[t].lut[e] == bh'.tables[t].lut[e] {
      assert t == k && udist(next + e) < extra;
    } else {
      RandomTablesDraws(bh', k + 1, extra, todo, l.1, udist, l.2, t, e);
    }
  }

  /** The inner loop of the random pass, over one table's lut. */
  method RandomLutPass(lut: seq<int>, extra: real, todo: real, done: nat, udist: nat -> real, next: nat)
    returns (lut': seq<int>, done': nat, next': nat)
    ensures (lut', done', next') == RandomLut(lut, 0, extra, todo, done, udist, next)
  {
    lut', done', next' := lut, done, next;
    var e := 0;
    while e < |lut'|
      invariant e <= |lut'| == |lut|
      invariant RandomLut(lut', e, extra, todo, done', udist, next') == RandomLut(lut, 0, extra, todo, done, udist, next)
    {
      if udist(next') < extra {
        lut' := lut'[e := -1];
        done' := done' + 1;
      }
      next' := next' + 1;
      if done' as real >= todo {
        return;
      }
      e := e + 1;
    }
  }

  /** The second loop of an attempt: every table in turn, each entry
      taking a draw, until a table's count reaches `todo`; the next table
      starts again whatever the count. */
  method RandomUnbind(bh: BitHash, extra: real, todo: real, done0: nat, udist: nat -> real, next0: nat)
    returns (res: BitHash, done: nat, next: nat)
    ensures (res, done, next) == RandomTables(bh, 0, extra, todo, done0, udist, next0)
  {
    res, done, next := bh, done0, next0;
    var t := 0;
    while t < |bh.tables|
      invariant t <= |bh.tables| == |res.tables|
      invariant RandomTables(res, t, extra, todo, done, udist, next) == RandomTables(bh, 0, extra, todo, done0, udist, next0)
    {
      var l, d, n := RandomLutPass(res.tables[t].lut, extra, todo, done, udist, next);
      res := res.(tables := res.tables[t := res.tables[t].(lut := l)]);
      done, next := d, n;
      t := t + 1;
    }
  }

  /** The entries `find_clashing_entries` ranks for keys of a well-formed
      hash are lut entries of it. */
  lemma ClashingEntriesInRange(bh: BitHash, keys: seq<(BitVec, nat)>)
    requires BitHashes.WellFormed(bh) && ClashingEntries(bh, keys).Ok?
    ensures var cb := ClashingEntries(bh, keys).value; forall i | 0 <= i < |cb| :: InRange(bh, cb[i].0)
  {
    var cb := ClashingEntries(bh, keys).value;
    var rows := Addresses(bh, keys);
    forall i | 0 <= i < |cb| ensures InRange(bh, cb[i].0) {
      ClashingEntriesEntry(bh, keys, cb[i]);
      var k :| 0 <= k < |keys| && Addressed(rows[k], cb[i].0);
      assert KeyAddress(bh.tables[cb[i].0.0], keys[k].0) == Ok(cb[i].0.1);
    }
  }

  // ---------------------------------------------------------------------
  // bit_hash_polish

  /** When `find_clashing_entries` succeeds every key reads exactly one
      entry of each of the `wO` tables: a concrete address in range, and
      no second entry of the same table. */
  lemma KeyTouchesEachTable(bh: BitHash, keys: seq<(BitVec, nat)>, i: nat)
    requires BitHashes.WellFormed(bh) && ClashingEntries(bh, keys).Ok? && i < |keys|
    ensures var row := Addresses(bh, keys)[i];
      && (forall u | 0 <= u < |bh.tables| ::
            && KeyAddress(bh.tables[u], keys[i].0).Ok?
            && InRange(bh, (u, KeyAddress(bh.tables[u], keys[i].0).value))
            && Addressed(row, (u, KeyAddress(bh.tables[u], keys[i].0).value)))
      && (forall p, q | Addressed(row, p) && Addressed(row, q) && p.0 == q.0 :: p == q)
  {
    ClashingEntriesErr(bh, keys);
  }

  /** The relaxed copy of an attempt keeps the ranked clash entries it
      unbound first, whatever the random pass did after. */
  lemma ClashesStayUnbound(bh: BitHash, cb: seq<(Pair, nat)>, n: nat, relaxed: BitHash)
    requires n <= |cb| && (forall i | 0 <= i < |cb| :: InRange(bh, cb[i].0))
    requires Relaxes(UnbindFirst(bh, cb, n), relaxed)
    ensures forall i | 0 <= i < n :: relaxed.tables[cb[i].0.0].lut[cb[i].0.1] == -1
  {
    forall i | 0 <= i < n ensures relaxed.tables[cb[i].0.0].lut[cb[i].0.1] == -1 {
      var p := cb[i].0;
      assert cb[i].0 == (p.0, p.1);
      UnbindFirstAt(bh, cb, n, p.0, p.1);
    }
  }

  /** The relaxed copy an attempt hands to the encoding: `bh` with the
      first `unbound` ranked clash entries made don't cares, `unbound`
      reaching the budget `todo` unless the ranking runs out, and maybe
      more entries relaxed by the random pass. */
  ghost predicate RelaxedFor(bh: BitHash, cb: seq<(Pair, nat)>, todo: real, relaxed: BitHash, unbound: nat)
  {
    && Relaxes(bh, relaxed)
    && unbound <= |cb| && (|cb| > 0 ==> unbound > 0) && (unbound == |cb| || unbound as real >= todo)
    && (unbound > 1 ==> ((unbound - 1) as real) < todo)
    && (forall i | 0 <= i < unbound :: InRange(bh, cb[i].0) && relaxed.tables[cb[i].0.0].lut[cb[i].0.1] == -1)
  }

  /** `cnf` is what `to_cnf`, with the folded equality clauses, produces
      for `relaxed` and the keys `ks`. */
  ghost predicate EncodedAs(relaxed: BitHash, ks: seq<BitVec>, cnf: CnfProblem)
  {
    && BitHashes.WellFormed(relaxed) && |ks| > 0
    && Numbering(cnf.lutToVariable) && Unbound(relaxed, cnf.lutToVariable)
    && KeysRead(relaxed, ks, |ks|, cnf.lutToVariable)
    && cnf.clauses == ToCnfClauses(relaxed, cnf.lutToVariable, ks)
  }

  /** What an answered attempt yields: a relaxed copy of `bh`, its
      encoding, a non-empty model of the solver and, as the result, the
      model written into the relaxed copy. */
  ghost predicate Answered(bh: BitHash, ks: seq<BitVec>, cb: seq<(Pair, nat)>, todo: real, relaxed: BitHash,
                           cnf: CnfProblem, sol: Solution, unbound: nat, r: Result<BitHash>)
  {
    match r
    case Err(_) => false
    case Ok(_) =>
      && RelaxedFor(bh, cb, todo, relaxed, unbound) && EncodedAs(relaxed, ks, cnf)
      && |sol| > 0 && r == Substitute(relaxed, cnf, sol)
  }

  /** The result of an answered attempt has the shape of the hash it came
      from, and a 0/1 model gives a well-formed hash whose variants are
      decided and which separates the keys exactly when the model
      satisfies every clause. */
  lemma AnsweredMeaning(bh: BitHash, ks: seq<BitVec>, cb: seq<(Pair, nat)>, todo: real, relaxed: BitHash,
                        cnf: CnfProblem, sol: Solution, unbound: nat, r: Result<BitHash>)
    requires Answered(bh, ks, cb, todo, relaxed, cnf, sol, unbound, r)
    ensures r.Ok? && SameShape(bh, r.value)
    ensures Boolean(sol, cnf.lutToVariable) ==>
      && BitHashes.WellFormed(r.value) && VariantsDecided(r.value, ks)
      && (AllTrue(sol, cnf.clauses) <==> Solves(r.value, ks))
  {
    assert cnf == CnfProblem(cnf.lutToVariable, ToCnfClauses(relaxed, cnf.lutToVariable, ks));
    if Boolean(sol, cnf.lutToVariable) {
      ToCnfMeaning(relaxed, ks, cnf.lutToVariable, sol);
    }
  }

  /** The number of entries an attempt with share `extra` may unbind
      first, as `bit_hash_polish` computes it. */
  function Budget(extra: real, nEntries: nat): (todo: real)
    ensures 0.0 <= extra ==> 0.0 <= todo
  {
    extra * (nEntries as real)
  }

  /** One attempt of `bit_hash_polish` with share `extra` and budget
      `todo`: unbind the ranked clash entries, then a random share of the
      rest, encode and ask the solver. `next'` is the next unused draw. */
  method Attempt(bh: BitHash, ks: seq<BitVec>, cb: seq<(Pair, nat)>, extra: real, todo: real,
                 udist: nat -> real, next: nat, sat: CnfProblem -> Solution)
    returns (found: bool, r: Result<BitHash>, next': nat, ghost relaxed: BitHash, ghost cnf: CnfProblem,
             ghost sol: Solution, ghost unbound: nat)
    requires BitHashes.WellFormed(bh) && |ks| > 0
    requires forall i | 0 <= i < |cb| :: InRange(bh, cb[i].0)
    ensures found ==> sol == sat(cnf) && Answered(bh, ks, cb, todo, relaxed, cnf, sol, unbound, r)
    ensures !found ==> r == Ok(bh)
    ensures (forall i | 0 <= i < |ks| :: IsConcrete(ks[i])) ==>
      cnf.clauses == ToCnfClausesAsWritten(relaxed, cnf.lutToVariable, ks)
  {
    var res, done := UnbindClashes(bh, cb, todo);
    UnbindFirstRelaxes(bh, cb, done);
    var res', done', n' := RandomUnbind(res, extra, todo, done, udist, next);
    RandomTablesRelaxes(res, 0, extra, todo, done, udist, next);
    RelaxesTransitive(bh, res, res');
    RelaxesWellFormed(bh, res');
    var prob := ToCnf(res', ks);
    var s := sat(prob);
    relaxed, cnf, sol, unbound, next' := res', prob, s, done, n';
    if |s| == 0 {
      return false, Ok(bh), next', relaxed, cnf, sol, unbound;
    }
    ClashesStayUnbound(bh, cb, done, res');
    r := Substitute(res', prob, s);
    found := true;
  }

  /** The attempts of `bit_hash_polish`: shares `extra` from 1% growing by
      half while below 1, each with budget `extra * nEntries`, until the
      solver answers one; `found` is false when none is answered. */
  method Attempts(bh: BitHash, ks: seq<BitVec>, cb: seq<(Pair, nat)>, nEntries: nat,
                  udist: nat -> real, sat: CnfProblem -> Solution)
    returns (found: bool, r: Result<BitHash>, ghost relaxed: BitHash, ghost cnf: CnfProblem,
             ghost sol: Solution, ghost unbound: nat, ghost extra: real, ghost todo: real)
    requires BitHashes.WellFormed(bh) && |ks| > 0
    requires forall i | 0 <= i < |cb| :: InRange(bh, cb[i].0)
    ensures found ==>
      && 0.01 <= extra < 1.0 && todo == Budget(extra, nEntries) && sol == sat(cnf)
      && Answered(bh, ks, cb, todo, relaxed, cnf, sol, unbound, r)
    ensures !found ==> r == Ok(bh)
  {
    relaxed, cnf, sol, unbound, extra, todo := bh, CnfProblem(map[], []), map[], 0, 0.0, 0.0;
    var x := 0.01;
    var next := 0;
    ghost var k := 0;
    while x < 1.0
      invariant x >= 0.01 + 0.005 * (k as real)
      decreases 200 - k
    {
      var budget := Budget(x, nEntries);
      found, r, next, relaxed, cnf, sol, unbound := Attempt(bh, ks, cb, x, budget, udist, next, sat);
      if found {
        return found, r, relaxed, cnf, sol, unbound, x, budget;
      }
      x := x * 1.5;
      k := k + 1;
    }
    return false, Ok(bh), relaxed, cnf, sol, unbound, extra, todo;
  }

  /** `bit_hash_polish`: a hash that already separates the keys comes back
      as it is. Otherwise the clashing keys and the entries they read are
      ranked, and attempts follow with a growing share `extra` of the
      entries, from 1% up by half each time while below all of them: the
      top-ranked clash entries are made don't cares up to the budget
      `todo = extra * nEntries`, a random share `extra` of the rest
      follows, and the relaxed copy goes to the SAT encoding. The first
      attempt the solver (`sat`, empty for no model) answers gives the
      result, the model written into the relaxed copy; when none does,
      the hash comes back unchanged. `udist(n)` is the n-th uniform draw. */
  method BitHashPolish(bh: BitHash, ks: seq<BitVec>, udist: nat -> real, sat: CnfProblem -> Solution)
    returns (r: Result<BitHash>, ghost solved: bool, ghost relaxed: BitHash, ghost cnf: CnfProblem,
             ghost sol: Solution, ghost unbound: nat, ghost extra: real, ghost ranked: seq<(Pair, nat)>,
             ghost todo: real)
    requires BitHashes.WellFormed(bh) && VariantsDecided(bh, ks) && forall i | 0 <= i < |ks| :: Decided(bh, ks[i])
    ensures Solves(bh, ks) ==> r == Ok(bh)
    ensures r.Err? ==> r.msg == NonConcreteMsg
    ensures !solved ==> r.Err? || r == Ok(bh)
    ensures solved ==>
      && !Solves(bh, ks) && 0.01 <= extra < 1.0 && sol == sat(cnf)
      && ClashingKeys(bh, ks).Ok? && ClashingEntries(bh, ClashingKeys(bh, ks).value) == Ok(ranked)
      && todo == Budget(extra, EntryCount(bh.tables))
      && Answered(bh, ks, ranked, todo, relaxed, cnf, sol, unbound, r)
  {
    solved, relaxed, cnf, sol, unbound, extra, ranked, todo := false, bh, CnfProblem(map[], []), map[], 0, 0.0, [], 0.0;
    var passes := BitHashes.IsSolution(bh, ks);
    if passes {
      r := Ok(bh);
      return;
    }
    assert |ks| > 0;
    var nEntries := CountEntries(bh);
    var clashKeys := ClashingKeys(bh, ks);
    if clashKeys.Err? {
      r := Err(clashKeys.msg);
      return;
    }
    var clashBits := ClashingEntries(bh, clashKeys.value);
    ClashingEntriesErr(bh, clashKeys.value);
    if clashBits.Err? {
      r := Err(clashBits.msg);
      return;
    }
    ranked := clashBits.value;
    ClashingEntriesInRange(bh, clashKeys.value);
    solved, r, relaxed, cnf, sol, unbound, extra, todo := Attempts(bh, ks, clashBits.value, nEntries, udist, sat);
  }
}
