/** Partial merkle trees: a compact proof that some transactions belong to a block. The encoder
    and the decoder walk the same tree; what the decoder accepts is authenticated by the root. */
module PartialMerkle {
  import opened Bits
  import opened Numbers

  /** A 256-bit hash; the null hash stands for failure. */
  type Hash = nat
  const NULL: Hash := 0

  const MAX_BLOCK_BASE_SIZE := 1000000
  const MAX_TRANSACTIONS := MAX_BLOCK_BASE_SIZE / 60

  /** The hash of two hashes. */
  type Combine = (Hash, Hash) -> Hash

  ghost predicate Distinct(txids: seq<Hash>)
  {
    forall i, j :: 0 <= i < j < |txids| ==> txids[i] != txids[j]
  }

  /** Collision resistance, idealised: distinct pairs have distinct hashes. */
  ghost predicate Injective(hash: Combine)
  {
    forall a, b, c, d :: hash(a, b) == hash(c, d) ==> a == c && b == d
  }

  /** There are such functions on hashes of unlimited length. */
  lemma SomeInjective()
    ensures Injective(Paired)
  {
    forall a: Hash, b: Hash, c: Hash, d: Hash | Paired(a, b) == Paired(c, d) ensures a == c && b == d {
      Squares(a + b, c + d);
      Squares(c + d, a + b);
    }
  }

  function Paired(a: Hash, b: Hash): Hash { (a + b) * (a + b) + a }

  lemma Squares(x: nat, y: nat)
    ensures x < y ==> x * x + x < y * y
  {
    if x < y {
      MulMono(x + 1, y, x + 1, y);
      assert (x + 1) * (x + 1) == x * x + 2 * x + 1;
    }
  }

  // ----- the shape of the tree -----

  /** The number of nodes at a height above n transactions. */
  function Width(n: nat, h: nat): nat
  {
    (n + Pow(2, h) - 1) / Pow(2, h)
  }

  /** A node exists when it covers at least one transaction. */
  predicate Covers(n: nat, h: nat, pos: nat) { pos * Pow(2, h) < n }

  lemma CeilMeaning(n: nat, p: nat, pos: nat)
    requires p >= 1
    ensures pos < (n + p - 1) / p <==> pos * p < n
  {
    var q := (n + p - 1) / p;
    assert q * p <= n + p - 1 < q * p + p;
    if pos < q {
      assert (pos + 1) * p <= q * p;
      assert (pos + 1) * p == pos * p + p;
    } else {
      assert q * p <= pos * p;
    }
  }

  lemma WidthMeaning(n: nat, h: nat, pos: nat)
    ensures pos < Width(n, h) <==> Covers(n, h, pos)
  {
    CeilMeaning(n, Pow(2, h), pos);
  }

  /** A node's left child exists, and the children split what the node covers. */
  lemma Children(n: nat, h: nat, pos: nat)
    requires h > 0
    ensures (2 * pos) * Pow(2, h - 1) == pos * Pow(2, h)
    ensures (2 * pos + 1) * Pow(2, h - 1) == pos * Pow(2, h) + Pow(2, h - 1)
    ensures (2 * pos + 2) * Pow(2, h - 1) == (pos + 1) * Pow(2, h)
    ensures Covers(n, h, pos) ==> Covers(n, h - 1, 2 * pos)
    ensures 2 * pos + 1 < Width(n, h - 1) <==> Covers(n, h - 1, 2 * pos + 1)
  {
    var p := Pow(2, h - 1);
    assert Pow(2, h) == 2 * p;
    assert (2 * pos) * p == pos * (2 * p);
    assert (2 * pos + 1) * p == pos * (2 * p) + p;
    assert (2 * pos + 2) * p == (pos + 1) * (2 * p);
    WidthMeaning(n, h - 1, 2 * pos + 1);
  }

  function Lo(h: nat, pos: nat): nat { pos * Pow(2, h) }

  function Hi(n: nat, h: nat, pos: nat): (r: nat)
    ensures r <= n
  {
    var end := (pos + 1) * Pow(2, h);
    if end < n then end else n
  }

  lemma ChildRanges(n: nat, h: nat, pos: nat)
    requires h > 0 && Covers(n, h, pos)
    ensures Lo(h - 1, 2 * pos) == Lo(h, pos) < Hi(n, h - 1, 2 * pos)
    ensures if Covers(n, h - 1, 2 * pos + 1)
            then Hi(n, h - 1, 2 * pos) == Lo(h - 1, 2 * pos + 1) < Hi(n, h - 1, 2 * pos + 1) == Hi(n, h, pos)
            else Hi(n, h - 1, 2 * pos) == Hi(n, h, pos)
  {
    Children(n, h, pos);
    assert (2 * pos + 1 + 1) * Pow(2, h - 1) == (pos + 1) * Pow(2, h);
  }

  lemma LeafRange(n: nat, pos: nat)
    requires Covers(n, 0, pos)
    ensures Lo(0, pos) == pos && Hi(n, 0, pos) == pos + 1
  {
  }

  /** The height at which a single node remains. */
  function HeightFrom(n: nat, h: nat): (r: nat)
    ensures r >= h && Width(n, r) <= 1
    decreases if Width(n, h) > 1 then Width(n, h) else 0
  {
    if Width(n, h) > 1 then
      WidthShrinks(n, h);
      HeightFrom(n, h + 1)
    else h
  }

  lemma WidthShrinks(n: nat, h: nat)
    requires Width(n, h) > 1
    ensures Width(n, h + 1) < Width(n, h)
  {
    var w := Width(n, h);
    WidthMeaning(n, h, w);
    WidthMeaning(n, h + 1, w - 1);
    Halve(w, Pow(2, h), n);
  }

  lemma Halve(w: nat, p: nat, n: nat)
    requires w >= 2 && w * p >= n
    ensures (w - 1) * (2 * p) >= n
  {
    assert (w - 1) * (2 * p) == w * p + (w - 2) * p;
    assert (w - 2) * p >= 0;
  }

  function Height(n: nat): nat { HeightFrom(n, 0) }

  lemma RootCoversAll(n: nat)
    requires n > 0
    ensures Covers(n, Height(n), 0) && Lo(Height(n), 0) == 0 && Hi(n, Height(n), 0) == n
  {
    WidthMeaning(n, Height(n), 1);
    assert 1 * Pow(2, Height(n)) == Pow(2, Height(n));
  }

  /** The hash of a node: a lone child is combined with itself. */
  function CalcHash(hash: Combine, txids: seq<Hash>, h: nat, pos: nat): Hash
    requires Covers(|txids|, h, pos)
    decreases h
  {
    if h == 0 then txids[pos]
    else
      Children(|txids|, h, pos);
      var left := CalcHash(hash, txids, h - 1, pos * 2);
      var right := if pos * 2 + 1 < Width(|txids|, h - 1) then CalcHash(hash, txids, h - 1, pos * 2 + 1) else left;
      hash(left, right)
  }

  function MerkleRoot(hash: Combine, txids: seq<Hash>): Hash
    requires |txids| > 0
  {
    RootCoversAll(|txids|);
    CalcHash(hash, txids, Height(|txids|), 0)
  }

  /** Under an injective hash, different nodes at one height have different hashes. */
  lemma {:induction false} NodesDiffer(hash: Combine, txids: seq<Hash>, h: nat, p: nat, q: nat)
    requires Injective(hash) && Covers(|txids|, h, p) && Covers(|txids|, h, q)
    requires Distinct(txids)
    requires CalcHash(hash, txids, h, p) == CalcHash(hash, txids, h, q)
    ensures p == q
    decreases h
  {
    if h > 0 {
      Children(|txids|, h, p);
      Children(|txids|, h, q);
      NodesDiffer(hash, txids, h - 1, p * 2, q * 2);
    }
  }

  // ----- the same root, level by level -----

  /** The hashes one level up: of neighbours, the last one with itself if it has none. */
  function NextLevel(hash: Combine, row: seq<Hash>): (r: seq<Hash>)
    requires row != []
    ensures |r| == (|row| + 1) / 2
  {
    seq((|row| + 1) / 2, i requires 0 <= i < (|row| + 1) / 2 =>
      hash(row[2 * i], row[if 2 * i + 1 < |row| then 2 * i + 1 else |row| - 1]))
  }

  function LevelRoot(hash: Combine, row: seq<Hash>): Hash
    requires row != []
    decreases |row|
  {
    if |row| == 1 then row[0] else LevelRoot(hash, NextLevel(hash, row))
  }

  lemma WidthHalves(n: nat, h: nat)
    requires h > 0
    ensures Width(n, h) == (Width(n, h - 1) + 1) / 2
  {
    hide Width;
    BelowHalf(n, h, Width(n, h));
    BelowHalf(n, h, (Width(n, h - 1) + 1) / 2);
  }

  lemma BelowHalf(n: nat, h: nat, pos: nat)
    requires h > 0
    ensures pos < Width(n, h) <==> pos < (Width(n, h - 1) + 1) / 2
  {
    hide Width, Pow;
    WidthMeaning(n, h, pos);
    WidthMeaning(n, h - 1, 2 * pos);
    Children(n, h, pos);
  }

  /** The hashes of all nodes at a height. */
  function Row(hash: Combine, txids: seq<Hash>, h: nat): (r: seq<Hash>)
    requires txids != []
    ensures r != []
  {
    if h == 0 then txids else NextLevel(hash, Row(hash, txids, h - 1))
  }

  lemma {:induction false} RowIs(hash: Combine, txids: seq<Hash>, h: nat)
    requires txids != []
    ensures |Row(hash, txids, h)| == Width(|txids|, h)
    ensures forall pos: nat :: pos < Width(|txids|, h) ==>
      Covers(|txids|, h, pos) && Row(hash, txids, h)[pos] == CalcHash(hash, txids, h, pos)
    decreases h
  {
    hide Width, Covers;
    var n := |txids|;
    if h == 0 {
      WidthAtLeaves(n);
      forall pos: nat | pos < n ensures Covers(n, 0, pos) { WidthMeaning(n, 0, pos); }
    } else {
      RowIs(hash, txids, h - 1);
      WidthHalves(n, h);
      forall pos: nat | pos < Width(n, h)
        ensures Covers(n, h, pos) && Row(hash, txids, h)[pos] == CalcHash(hash, txids, h, pos)
      {
        WidthMeaning(n, h, pos);
        NodeOfRow(hash, txids, h, pos, Row(hash, txids, h - 1));
      }
    }
  }

  lemma NodeOfRow(hash: Combine, txids: seq<Hash>, h: nat, pos: nat, row: seq<Hash>)
    requires h > 0 && Covers(|txids|, h, pos) && |row| == Width(|txids|, h - 1)
    requires pos < (|row| + 1) / 2 && forall p: nat :: p < |row| ==>
      Covers(|txids|, h - 1, p) && row[p] == CalcHash(hash, txids, h - 1, p)
    ensures row != [] && NextLevel(hash, row)[pos] == CalcHash(hash, txids, h, pos)
  {
    hide Width, Covers;
    Children(|txids|, h, pos);
    assert row[2 * pos] == CalcHash(hash, txids, h - 1, 2 * pos);
  }

  lemma WidthAtLeaves(n: nat)
    ensures Width(n, 0) == n
  {
  }

  lemma {:induction false} RootFrom(hash: Combine, txids: seq<Hash>, h: nat)
    requires txids != []
    ensures Covers(|txids|, HeightFrom(|txids|, h), 0)
    ensures CalcHash(hash, txids, HeightFrom(|txids|, h), 0) == LevelRoot(hash, Row(hash, txids, h))
    decreases if Width(|txids|, h) > 1 then Width(|txids|, h) else 0
  {
    hide Width, CalcHash, Covers;
    RowIs(hash, txids, h);
    if Width(|txids|, h) > 1 {
      WidthShrinks(|txids|, h);
      RootFrom(hash, txids, h + 1);
    }
  }

  /** The root of the recursion over nodes is the root computed level by level. */
  lemma RootByLevels(hash: Combine, txids: seq<Hash>)
    requires txids != []
    ensures MerkleRoot(hash, txids) == LevelRoot(hash, txids)
  {
    hide CalcHash, LevelRoot, HeightFrom;
    RootFrom(hash, txids, 0);
  }

  // ----- the encoder -----

  predicate AnyMatch(matches: seq<bool>, lo: nat, hi: nat)
    requires hi <= |matches|
  {
    exists p :: lo <= p < hi && matches[p]
  }

  datatype Partial = Partial(bits: seq<bool>, hashes: seq<Hash>)

  /** The bits and hashes of a subtree, in depth-first order. */
  function Build(hash: Combine, txids: seq<Hash>, matches: seq<bool>, h: nat, pos: nat): Partial
    requires |matches| == |txids| && Covers(|txids|, h, pos)
    decreases h
  {
    var n := |txids|;
    var parentOfMatch := AnyMatch(matches, Lo(h, pos), Hi(n, h, pos));
    if h == 0 || !parentOfMatch then
      Partial([parentOfMatch], [CalcHash(hash, txids, h, pos)])
    else
      Children(n, h, pos);
      var left := Build(hash, txids, matches, h - 1, pos * 2);
      var right := if pos * 2 + 1 < Width(n, h - 1) then Build(hash, txids, matches, h - 1,
          pos * 2 + 1) else Partial([], []);
      Partial([true] + left.bits + right.bits, left.hashes + right.hashes)
  }

  /** The matched positions of a range, in order. */
  function Selected(matches: seq<bool>, lo: nat, hi: nat): (r: seq<nat>)
    requires lo <= hi <= |matches|
    ensures forall k :: 0 <= k < |r| ==> lo <= r[k] < hi && matches[r[k]]
    ensures forall p :: lo <= p < hi && matches[p] ==> p in r
    ensures forall j, k :: 0 <= j < k < |r| ==> r[j] < r[k]
    decreases hi - lo
  {
    if lo == hi then []
    else (if matches[lo] then [lo] else []) + Selected(matches, lo + 1, hi)
  }

  lemma {:induction false} SelectedSplit(matches: seq<bool>, lo: nat, mid: nat, hi: nat)
    requires lo <= mid <= hi <= |matches|
    ensures Selected(matches, lo, hi) == Selected(matches, lo, mid) + Selected(matches, mid, hi)
    decreases mid - lo
  {
    if lo < mid {
      SelectedSplit(matches, lo + 1, mid, hi);
    }
  }

  function Pick(txids: seq<Hash>, positions: seq<nat>): (r: seq<Hash>)
    requires forall k :: 0 <= k < |positions| ==> positions[k] < |txids|
    ensures |r| == |positions| && forall k :: 0 <= k < |r| ==> r[k] == txids[positions[k]]
  {
    seq(|positions|, k requires 0 <= k < |positions| => txids[positions[k]])
  }

  function HashCap(matched: nat, h: nat): nat { 1 + matched * h }

  /** Sizes: a bit per visited node, at most a hash per transaction covered, and at most
      1 + matched * height hashes. */
  lemma {:induction false} BuildSizes(hash: Combine, txids: seq<Hash>, matches: seq<bool>, h: nat, pos: nat)
    requires |matches| == |txids| && Covers(|txids|, h, pos)
    ensures Lo(h, pos) < Hi(|txids|, h, pos)
    ensures var b := Build(hash, txids, matches, h, pos);
            && 1 <= |b.hashes| <= |b.bits|
            && |b.hashes| <= Hi(|txids|, h, pos) - Lo(h, pos)
            && |b.hashes| <= HashCap(|Selected(matches, Lo(h, pos), Hi(|txids|, h, pos))|, h)
    decreases h
  {
    hide Selected, CalcHash, Width, HashCap, Lo, Hi, Covers, Pow, AnyMatch;
    var n := |txids|;
    var lo, hi := Lo(h, pos), Hi(n, h, pos);
    NonEmptyRange(n, h, pos);
    SizeStep(|Selected(matches, lo, hi)|, 0, h);
    if h > 0 && AnyMatch(matches, lo, hi) {
      Children(n, h, pos);
      ChildRanges(n, h, pos);
      var mid := Hi(n, h - 1, 2 * pos);
      BuildSizes(hash, txids, matches, h - 1, pos * 2);
      SelectedSplit(matches, lo, mid, hi);
      SomeSelected(matches, lo, hi);
      SizeStep(|Selected(matches, lo, mid)|, |Selected(matches, mid, hi)|, h);
      if Covers(n, h - 1, 2 * pos + 1) {
        BuildSizes(hash, txids, matches, h - 1, pos * 2 + 1);
      }
    }
  }

  lemma NonEmptyRange(n: nat, h: nat, pos: nat)
    requires Covers(n, h, pos)
    ensures Lo(h, pos) < Hi(n, h, pos)
  {
    assert (pos + 1) * Pow(2, h) == pos * Pow(2, h) + Pow(2, h);
  }

  lemma SomeSelected(matches: seq<bool>, lo: nat, hi: nat)
    requires lo <= hi <= |matches|
    ensures AnyMatch(matches, lo, hi) <==> |Selected(matches, lo, hi)| >= 1
  {
    if AnyMatch(matches, lo, hi) {
      var p :| lo <= p < hi && matches[p];
      assert p in Selected(matches, lo, hi);
    }
    assert |Selected(matches, lo, hi)| >= 1 ==> matches[Selected(matches, lo, hi)[0]];
  }

  lemma SizeStep(a: nat, b: nat, h: nat)
    ensures HashCap(a, h) >= 1
    ensures h > 0 && a + b >= 1 ==> HashCap(a, h - 1) + HashCap(b, h - 1) <= HashCap(a + b, h)
    ensures h > 0 ==> HashCap(a, h - 1) <= HashCap(a + b, h)
  {
    if h > 0 {
      assert (a + b) * h == a * (h - 1) + b * (h - 1) + (a + b);
      assert b * (h - 1) >= 0;
    }
  }

  // ----- the decoder -----

  /** How far the decoder is: bits and hashes used, matches found, and whether the data was bad. */
  datatype Cursor = Cursor(bitsUsed: nat, hashUsed: nat, matched: seq<Hash>, indices: seq<nat>, bad: bool)

  /** Decodes the subtree at a node, for a tree over n transactions. */
  function Extract(hash: Combine, n: nat, bits: seq<bool>, hashes: seq<Hash>, h: nat, pos: nat, c: Cursor)
                   : (r: (Hash, Cursor))
    decreases h
  {
    if c.bitsUsed >= |bits| then (NULL, c.(bad := true))
    else
      var parentOfMatch := bits[c.bitsUsed];
      var c1 := c.(bitsUsed := c.bitsUsed + 1);
      if h == 0 || !parentOfMatch then
        if c1.hashUsed >= |hashes| then (NULL, c1.(bad := true))
        else
          var x := hashes[c1.hashUsed];
          var c2 := c1.(hashUsed := c1.hashUsed + 1);
          if h == 0 && parentOfMatch
          then (x, c2.(matched := c2.matched + [x], indices := c2.indices + [pos]))
          else (x, c2)
      else
        var left := Extract(hash, n, bits, hashes, h - 1, pos * 2, c1);
        if pos * 2 + 1 < Width(n, h - 1) then
          var right := Extract(hash, n, bits, hashes, h - 1, pos * 2 + 1, left.1);
          (hash(left.0, right.0), if right.0 == left.0 then right.1.(bad := true) else right.1)
        else (hash(left.0, left.0), left.1)
  }

  /** Badness stays. */
  lemma {:induction false} BadStays(hash: Combine, n: nat, bits: seq<bool>, hashes: seq<Hash>, h: nat, pos: nat,
                                    c: Cursor)
    ensures c.bad ==> Extract(hash, n, bits, hashes, h, pos, c).1.bad
    decreases h
  {
    hide Width;
    if c.bitsUsed < |bits| && h > 0 && bits[c.bitsUsed] {
      var c1 := c.(bitsUsed := c.bitsUsed + 1);
      BadStays(hash, n, bits, hashes, h - 1, pos * 2, c1);
      BadStays(hash, n, bits, hashes, h - 1, pos * 2 + 1, Extract(hash, n, bits, hashes, h - 1, pos * 2, c1).1);
    }
  }

  /** Each hash is the transaction at the position given for it. */
  ghost predicate Genuine(txids: seq<Hash>, found: seq<Hash>, positions: seq<nat>)
  {
    |found| == |positions| && forall k :: 0 <= k < |found| ==> positions[k] < |txids| && found[k] == txids[positions[k]]
  }

  /** If a subtree decodes to the true hash of the node, then the matches it reports are genuine. */
  lemma {:induction false} ExtractSound(hash: Combine, txids: seq<Hash>, bits: seq<bool>, hashes: seq<Hash>, h: nat,
                                        pos: nat, c: Cursor)
      returns (found: seq<Hash>, positions: seq<nat>)
    requires Injective(hash) && Covers(|txids|, h, pos)
    requires var r := Extract(hash, |txids|, bits, hashes, h, pos, c); !r.1.bad && r.0 == CalcHash(hash, txids, h, pos)
    ensures var d := Extract(hash, |txids|, bits, hashes, h, pos, c).1;
            d.matched == c.matched + found && d.indices == c.indices + positions
    ensures Genuine(txids, found, positions)
    decreases h
  {
    hide Width, Pow, Covers, Extract, CalcHash, Injective;
    var n := |txids|;
    found, positions := [], [];
    if h > 0 && c.bitsUsed < |bits| && bits[c.bitsUsed] {
      Children(n, h, pos);
      NodeStep(hash, txids, bits, hashes, h, pos, c);
      var c1 := c.(bitsUsed := c.bitsUsed + 1);
      var left := Extract(hash, n, bits, hashes, h - 1, pos * 2, c1);
      if pos * 2 + 1 < Width(n, h - 1) {
        var right := Extract(hash, n, bits, hashes, h - 1, pos * 2 + 1, left.1);
        BadStays(hash, n, bits, hashes, h - 1, pos * 2 + 1, left.1);
        Split(hash, left.0, right.0, CalcHash(hash, txids, h - 1, pos * 2), CalcHash(hash, txids, h - 1, pos * 2 + 1));
        found, positions := ExtractSound(hash, txids, bits, hashes, h - 1, pos * 2, c1);
        var f2, p2 := ExtractSound(hash, txids, bits, hashes, h - 1, pos * 2 + 1, left.1);
        found, positions := found + f2, positions + p2;
      } else {
        Split(hash, left.0, left.0, CalcHash(hash, txids, h - 1, pos * 2), CalcHash(hash, txids, h - 1, pos * 2));
        found, positions := ExtractSound(hash, txids, bits, hashes, h - 1, pos * 2, c1);
      }
    } else {
      found, positions := LeafSound(hash, txids, bits, hashes, h, pos, c);
    }
  }

  lemma Split(hash: Combine, a: Hash, b: Hash, x: Hash, y: Hash)
    requires Injective(hash) && hash(a, b) == hash(x, y)
    ensures a == x && b == y
  {
  }

  lemma LeafSound(hash: Combine, txids: seq<Hash>, bits: seq<bool>, hashes: seq<Hash>, h: nat, pos: nat, c: Cursor)
      returns (found: seq<Hash>, positions: seq<nat>)
    requires Covers(|txids|, h, pos) && (h > 0 && c.bitsUsed < |bits| ==> !bits[c.bitsUsed])
    requires var r := Extract(hash, |txids|, bits, hashes, h, pos, c); !r.1.bad && r.0 == CalcHash(hash, txids, h, pos)
    ensures var d := Extract(hash, |txids|, bits, hashes, h, pos, c).1;
            d.matched == c.matched + found && d.indices == c.indices + positions
    ensures Genuine(txids, found, positions)
  {
    hide Width, Pow;
    found, positions := [], [];
    if h == 0 && bits[c.bitsUsed] {
      LeafRange(|txids|, pos);
      found, positions := [hashes[c.hashUsed]], [pos];
    }
  }

  /** The whole decoder: the root, the matches and their positions; the null hash on any irregularity. */
  function ExtractMatches(hash: Combine, n: nat, bits: seq<bool>, hashes: seq<Hash>,
      indices0: seq<nat>): (r: (Hash, seq<Hash>, seq<nat>))
  {
    if n == 0 || n > MAX_TRANSACTIONS || |hashes| > n || |bits| < |hashes| then (NULL, [], indices0)
    else
      var (root, c) := Extract(hash, n, bits, hashes, Height(n), 0, Cursor(0, 0, [], indices0, false));
      if c.bad || (c.bitsUsed + 7) / 8 != (|bits| + 7) / 8 || c.hashUsed != |hashes|
      then (NULL, c.matched, c.indices)
      else (root, c.matched, c.indices)
  }

  /** The data for a subtree is faulty: bits or hashes run out, or two neighbours have the same hash, which
      only a list with repeated transactions could have. */
  ghost predicate Faulty(hash: Combine, n: nat, bits: seq<bool>, hashes: seq<Hash>, h: nat, pos: nat, c: Cursor)
    decreases h
  {
    || c.bitsUsed >= |bits|
    || ((h == 0 || !bits[c.bitsUsed]) && c.hashUsed >= |hashes|)
    || (h > 0 && bits[c.bitsUsed] &&
        var c1 := c.(bitsUsed := c.bitsUsed + 1);
        var left := Extract(hash, n, bits, hashes, h - 1, pos * 2, c1);
        || Faulty(hash, n, bits, hashes, h - 1, pos * 2, c1)
        || (pos * 2 + 1 < Width(n, h - 1) &&
            (|| Faulty(hash, n, bits, hashes, h - 1, pos * 2 + 1, left.1)
             || Extract(hash, n, bits, hashes, h - 1, pos * 2 + 1, left.1).0 == left.0)))
  }

  lemma {:induction false} BadIff(hash: Combine, n: nat, bits: seq<bool>, hashes: seq<Hash>, h: nat, pos: nat,
                                  c: Cursor)
    ensures Extract(hash, n, bits, hashes, h, pos, c).1.bad <==> c.bad || Faulty(hash, n, bits, hashes, h, pos, c)
    decreases h
  {
    hide Width;
    if c.bitsUsed < |bits| && h > 0 && bits[c.bitsUsed] {
      var c1 := c.(bitsUsed := c.bitsUsed + 1);
      BadIff(hash, n, bits, hashes, h - 1, pos * 2, c1);
      BadIff(hash, n, bits, hashes, h - 1, pos * 2 + 1, Extract(hash, n, bits, hashes, h - 1, pos * 2, c1).1);
    }
  }

  /** The decoder answers the hash of the whole tree exactly when the number of transactions and the amount of data
      are plausible, nothing in the data is faulty, and all of it is used, up to less than a byte of bits. */
  lemma AnswersIff(hash: Combine, n: nat, bits: seq<bool>, hashes: seq<Hash>, indices0: seq<nat>)
    ensures var c := Cursor(0, 0, [], indices0, false);
      var (root, d) := Extract(hash, n, bits, hashes, Height(n), 0, c);
      var regular := && 0 < n <= 16666 && |hashes| <= n && |hashes| <= |bits|
                     && !Faulty(hash, n, bits, hashes, Height(n), 0, c)
                     && d.hashUsed == |hashes| && (d.bitsUsed + 7) / 8 == (|bits| + 7) / 8;
      ExtractMatches(hash, n, bits, hashes, indices0).0 == if regular then root else NULL
  {
    hide Extract, Faulty, HeightFrom;
    BadIff(hash, n, bits, hashes, Height(n), 0, Cursor(0, 0, [], indices0, false));
  }

  /** Soundness: whatever the bits and hashes are, if the decoder returns the merkle root of a list of
      that many transactions, then every reported match is that list's transaction at the reported position. */
  lemma Sound(hash: Combine, txids: seq<Hash>, bits: seq<bool>, hashes: seq<Hash>, indices0: seq<nat>)
    requires Injective(hash) && |txids| > 0
    requires MerkleRoot(hash, txids) != NULL
    requires ExtractMatches(hash, |txids|, bits, hashes, indices0).0 == MerkleRoot(hash, txids)
    ensures var r := ExtractMatches(hash, |txids|, bits, hashes, indices0);
            indices0 <= r.2 && Genuine(txids, r.1, r.2[|indices0|..])
  {
    hide Extract, CalcHash;
    RootCoversAll(|txids|);
    var c := Cursor(0, 0, [], indices0, false);
    var found, positions := ExtractSound(hash, txids, bits, hashes, Height(|txids|), 0, c);
    var r := ExtractMatches(hash, |txids|, bits, hashes, indices0);
    assert r.1 == found && r.2[|indices0|..] == positions;
  }

  // ----- completeness -----

  /** Decoding what was built for a node, wherever it lies in the data, uses exactly that part and
      yields the node's hash and the matched transactions below it, in order. */
  lemma {:induction false} ExtractComplete(hash: Combine, txids: seq<Hash>, matches: seq<bool>, bits: seq<bool>,
                                           hashes: seq<Hash>,
                                          h: nat, pos: nat, c: Cursor)
    requires Injective(hash) && |matches| == |txids| && Covers(|txids|, h, pos)
    requires Distinct(txids)
    requires At(Build(hash, txids, matches, h, pos), bits, hashes, c)
    ensures Lo(h, pos) <= Hi(|txids|, h, pos)
    ensures var b := Build(hash, txids, matches, h, pos);
            var chosen := Selected(matches, Lo(h, pos), Hi(|txids|, h, pos));
            Extract(hash, |txids|, bits, hashes, h, pos, c) ==
              (CalcHash(hash, txids, h, pos),
               Moved(c, txids, |b.bits|, |b.hashes|, chosen))
    decreases h
  {
    hide Width, Selected, AnyMatch, Lo, Hi, Covers, Pow, Pick, Build, Extract, CalcHash, Injective, Distinct, Moved;
    hide At;
    var n := |txids|;
    var lo, hi := Lo(h, pos), Hi(n, h, pos);
    NonEmptyRange(n, h, pos);
    SomeSelected(matches, lo, hi);
    if h == 0 || !AnyMatch(matches, lo, hi) {
      LeafComplete(hash, txids, matches, bits, hashes, h, pos, c);
    } else {
      Children(n, h, pos);
      ChildRanges(n, h, pos);
      var mid := Hi(n, h - 1, 2 * pos);
      var c1 := c.(bitsUsed := c.bitsUsed + 1);
      BuildLeft(hash, txids, matches, bits, hashes, h, pos, c);
      ExtractComplete(hash, txids, matches, bits, hashes, h - 1, pos * 2, c1);
      SelectedSplit(matches, lo, mid, hi);
      var l, r := Selected(matches, lo, mid), Selected(matches, mid, hi);
      var bl := Build(hash, txids, matches, h - 1, pos * 2);
      MovedAt(c1, txids, |bl.bits|, |bl.hashes|, l);
      if pos * 2 + 1 < Width(n, h - 1) {
        var c2 := Extract(hash, n, bits, hashes, h - 1, pos * 2, c1).1;
        BuildRight(hash, txids, matches, bits, hashes, h, pos, c);
        ExtractComplete(hash, txids, matches, bits, hashes, h - 1, pos * 2 + 1, c2);
        var br := Build(hash, txids, matches, h - 1, pos * 2 + 1);
        MovedTwice(c, txids, |bl.bits|, |bl.hashes|, l, |br.bits|, |br.hashes|, r);
        if CalcHash(hash, txids, h - 1, pos * 2) == CalcHash(hash, txids, h - 1, pos * 2 + 1) {
          NodesDiffer(hash, txids, h - 1, pos * 2, pos * 2 + 1);
        }
      } else {
        EmptyRange(matches, hi);
        assert l + [] == l;
        MovedOnce(c, txids, |bl.bits|, |bl.hashes|, l);
      }
      NodeStep(hash, txids, bits, hashes, h, pos, c);
    }
  }

  /** The cursor after a number of bits and hashes and the given matches. */
  function Moved(c: Cursor, txids: seq<Hash>, bits: nat, hashes: nat, chosen: seq<nat>): Cursor
    requires forall k :: 0 <= k < |chosen| ==> chosen[k] < |txids|
  {
    Cursor(c.bitsUsed + bits, c.hashUsed + hashes, c.matched + Pick(txids, chosen), c.indices + chosen, c.bad)
  }

  lemma MovedAt(c: Cursor, txids: seq<Hash>, bits: nat, hashes: nat, chosen: seq<nat>)
    requires forall k :: 0 <= k < |chosen| ==> chosen[k] < |txids|
    ensures var d := Moved(c, txids, bits, hashes, chosen);
      d.bitsUsed == c.bitsUsed + bits && d.hashUsed == c.hashUsed + hashes
  {
  }

  lemma MovedOnce(c: Cursor, txids: seq<Hash>, bits: nat, hashes: nat, chosen: seq<nat>)
    requires forall k :: 0 <= k < |chosen| ==> chosen[k] < |txids|
    ensures Moved(c.(bitsUsed := c.bitsUsed + 1), txids, bits, hashes, chosen) ==
        Moved(c, txids, 1 + bits, hashes, chosen)
  {
  }

  lemma MovedTwice(c: Cursor, txids: seq<Hash>, bits1: nat, hashes1: nat, l: seq<nat>, bits2: nat, hashes2: nat,
                   r: seq<nat>)
    requires forall k :: 0 <= k < |l| ==> l[k] < |txids|
    requires forall k :: 0 <= k < |r| ==> r[k] < |txids|
    ensures forall k :: 0 <= k < |l + r| ==> (l + r)[k] < |txids|
    ensures Moved(Moved(c.(bitsUsed := c.bitsUsed + 1), txids, bits1, hashes1, l), txids, bits2, hashes2, r) ==
            Moved(c, txids, 1 + bits1 + bits2, hashes1 + hashes2, l + r)
  {
    hide Pick;
    PickJoin(txids, l, r);
    assert c.indices + l + r == c.indices + (l + r);
    assert c.matched + Pick(txids, l) + Pick(txids, r) == c.matched + (Pick(txids, l) + Pick(txids, r));
  }

  /** One level of the hash and of the decoder, at a node with matches below. */
  lemma NodeStep(hash: Combine, txids: seq<Hash>, bits: seq<bool>, hashes: seq<Hash>, h: nat, pos: nat, c: Cursor)
    requires Covers(|txids|, h, pos) && h > 0 && c.bitsUsed < |bits| && bits[c.bitsUsed]
    ensures Covers(|txids|, h - 1, pos * 2)
    ensures (pos * 2 + 1 < Width(|txids|, h - 1) ==> Covers(|txids|, h - 1, pos * 2 + 1))
    ensures var n := |txids|;
            var left := Extract(hash, n, bits, hashes, h - 1, pos * 2, c.(bitsUsed := c.bitsUsed + 1));
            if pos * 2 + 1 < Width(n, h - 1) then
              var right := Extract(hash, n, bits, hashes, h - 1, pos * 2 + 1, left.1);
              && CalcHash(hash, txids, h, pos) == hash(CalcHash(hash, txids, h - 1, pos * 2),
                    CalcHash(hash, txids, h - 1, pos * 2 + 1))
              && Extract(hash, n, bits, hashes, h, pos, c) ==
                   (hash(left.0, right.0), if right.0 == left.0 then right.1.(bad := true) else right.1)
            else
              && CalcHash(hash, txids, h, pos) == hash(CalcHash(hash, txids, h - 1, pos * 2),
                    CalcHash(hash, txids, h - 1, pos * 2))
              && Extract(hash, n, bits, hashes, h, pos, c) == (hash(left.0, left.0), left.1)
  {
    hide Width, Pow;
    Children(|txids|, h, pos);
  }

  /** The data built for a subtree lies at the cursor. */
  ghost predicate At(b: Partial, bits: seq<bool>, hashes: seq<Hash>, c: Cursor)
  {
    && c.bitsUsed + |b.bits| <= |bits| && bits[c.bitsUsed..c.bitsUsed + |b.bits|] == b.bits
    && c.hashUsed + |b.hashes| <= |hashes| && hashes[c.hashUsed..c.hashUsed + |b.hashes|] == b.hashes
  }

  function RightPart(hash: Combine, txids: seq<Hash>, matches: seq<bool>, h: nat, pos: nat): Partial
    requires |matches| == |txids| && Covers(|txids|, h, pos) && h > 0
  {
    Children(|txids|, h, pos);
    if pos * 2 + 1 < Width(|txids|, h - 1) then Build(hash, txids, matches, h - 1, pos * 2 + 1) else Partial([], [])
  }

  lemma BuildNode(hash: Combine, txids: seq<Hash>, matches: seq<bool>, h: nat, pos: nat)
    requires |matches| == |txids| && Covers(|txids|, h, pos) && h > 0
    requires AnyMatch(matches, Lo(h, pos), Hi(|txids|, h, pos))
    ensures Covers(|txids|, h - 1, pos * 2)
    ensures var l, r := Build(hash, txids, matches, h - 1, pos * 2), RightPart(hash, txids, matches, h, pos);
            Build(hash, txids, matches, h, pos) == Partial([true] + l.bits + r.bits, l.hashes + r.hashes)
  {
    hide Width, Pow, AnyMatch, CalcHash, Lo, Hi, Covers;
    Children(|txids|, h, pos);
  }

  lemma BuildLeaf(hash: Combine, txids: seq<Hash>, matches: seq<bool>, h: nat, pos: nat)
    requires |matches| == |txids| && Covers(|txids|, h, pos)
    requires h == 0 || !AnyMatch(matches, Lo(h, pos), Hi(|txids|, h, pos))
    ensures Build(hash, txids, matches, h, pos) ==
            Partial([AnyMatch(matches, Lo(h, pos), Hi(|txids|, h, pos))], [CalcHash(hash, txids, h, pos)])
  {
  }

  lemma BuildLeft(hash: Combine, txids: seq<Hash>, matches: seq<bool>, bits: seq<bool>, hashes: seq<Hash>, h: nat,
                  pos: nat, c: Cursor)
    requires |matches| == |txids| && Covers(|txids|, h, pos) && h > 0
    requires AnyMatch(matches, Lo(h, pos), Hi(|txids|, h, pos))
    requires At(Build(hash, txids, matches, h, pos), bits, hashes, c)
    ensures Covers(|txids|, h - 1, pos * 2) && c.bitsUsed < |bits| && bits[c.bitsUsed]
    ensures At(Build(hash, txids, matches, h - 1, pos * 2), bits, hashes, c.(bitsUsed := c.bitsUsed + 1))
    ensures var b, l := Build(hash, txids, matches, h, pos), Build(hash, txids, matches, h - 1, pos * 2);
            !(pos * 2 + 1 < Width(|txids|, h - 1)) ==> |b.bits| == 1 + |l.bits| && |b.hashes| == |l.hashes|
  {
    hide Width, Pow, AnyMatch, CalcHash, Lo, Hi, Covers, Build;
    BuildNode(hash, txids, matches, h, pos);
    var b, l := Build(hash, txids, matches, h, pos), Build(hash, txids, matches, h - 1, pos * 2);
    assert bits[c.bitsUsed] == bits[c.bitsUsed..c.bitsUsed + |b.bits|][0];
    SubSlice(bits, c.bitsUsed, b.bits, 1, |l.bits|);
    SubSlice(hashes, c.hashUsed, b.hashes, 0, |l.hashes|);
    assert b.bits[1..1 + |l.bits|] == l.bits;
    assert b.hashes[0..|l.hashes|] == l.hashes;
  }

  lemma BuildRight(hash: Combine, txids: seq<Hash>, matches: seq<bool>, bits: seq<bool>, hashes: seq<Hash>, h: nat,
                   pos: nat, c: Cursor)
    requires |matches| == |txids| && Covers(|txids|, h, pos) && h > 0
    requires AnyMatch(matches, Lo(h, pos), Hi(|txids|, h, pos))
    requires At(Build(hash, txids, matches, h, pos), bits, hashes, c) && pos * 2 + 1 < Width(|txids|, h - 1)
    ensures Covers(|txids|, h - 1, pos * 2) && Covers(|txids|, h - 1, pos * 2 + 1)
    ensures var b, l, r := Build(hash, txids, matches, h, pos), Build(hash, txids, matches, h - 1, pos * 2),
        Build(hash, txids, matches, h - 1, pos * 2 + 1);
            && |b.bits| == 1 + |l.bits| + |r.bits| && |b.hashes| == |l.hashes| + |r.hashes|
            && forall d: Cursor :: d.bitsUsed == c.bitsUsed + 1 + |l.bits| && d.hashUsed == c.hashUsed + |l.hashes| ==>
                 At(r, bits, hashes, d)
  {
    hide Width, Pow, AnyMatch, CalcHash, Lo, Hi, Covers, Build;
    BuildNode(hash, txids, matches, h, pos);
    Children(|txids|, h, pos);
    var b, l, r := Build(hash, txids, matches, h, pos), Build(hash, txids, matches, h - 1, pos * 2),
        Build(hash, txids, matches, h - 1, pos * 2 + 1);
    SubSlice(bits, c.bitsUsed, b.bits, 1 + |l.bits|, |r.bits|);
    SubSlice(hashes, c.hashUsed, b.hashes, |l.hashes|, |r.hashes|);
    assert b.bits[1 + |l.bits|..1 + |l.bits| + |r.bits|] == r.bits;
    assert b.hashes[|l.hashes|..|l.hashes| + |r.hashes|] == r.hashes;
  }

  lemma LeafComplete(hash: Combine, txids: seq<Hash>, matches: seq<bool>, bits: seq<bool>, hashes: seq<Hash>, h: nat,
                     pos: nat, c: Cursor)
    requires |matches| == |txids| && Covers(|txids|, h, pos)
    requires (h == 0 || !AnyMatch(matches, Lo(h, pos), Hi(|txids|, h, pos)))
    requires At(Build(hash, txids, matches, h, pos), bits, hashes, c)
    ensures Lo(h, pos) <= Hi(|txids|, h, pos)
    ensures var b := Build(hash, txids, matches, h, pos);
            var chosen := Selected(matches, Lo(h, pos), Hi(|txids|, h, pos));
            Extract(hash, |txids|, bits, hashes, h, pos, c) ==
              (CalcHash(hash, txids, h, pos),
               Moved(c, txids, |b.bits|, |b.hashes|, chosen))
  {
    hide Width, Pow, AnyMatch, Selected, Pick;
    var b := Build(hash, txids, matches, h, pos);
    LeafCase(txids, matches, h, pos);
    assert bits[c.bitsUsed] == bits[c.bitsUsed..c.bitsUsed + |b.bits|][0] == b.bits[0];
    assert hashes[c.hashUsed] == hashes[c.hashUsed..c.hashUsed + |b.hashes|][0] == b.hashes[0];
    assert c.matched + [] == c.matched && c.indices + [] == c.indices;
  }

  lemma LeafCase(txids: seq<Hash>, matches: seq<bool>, h: nat, pos: nat)
    requires |matches| == |txids| && Covers(|txids|, h, pos)
    ensures Lo(h, pos) <= Hi(|txids|, h, pos)
    ensures var chosen := Selected(matches, Lo(h, pos), Hi(|txids|, h, pos));
            && (!AnyMatch(matches, Lo(h, pos), Hi(|txids|, h, pos)) ==> chosen == [] && Pick(txids, chosen) == [])
            && (h == 0 && AnyMatch(matches, Lo(h, pos), Hi(|txids|, h, pos)) ==>
                  chosen == [pos] && Pick(txids, chosen) == [txids[pos]])
  {
    NonEmptyRange(|txids|, h, pos);
    SomeSelected(matches, Lo(h, pos), Hi(|txids|, h, pos));
    if h == 0 {
      LeafRange(|txids|, pos);
      assert Selected(matches, pos + 1, pos + 1) == [];
    }
  }

  lemma EmptyRange(matches: seq<bool>, hi: nat)
    requires hi <= |matches|
    ensures Selected(matches, hi, hi) == []
  {
  }

  lemma PickJoin(txids: seq<Hash>, a: seq<nat>, b: seq<nat>)
    requires forall k :: 0 <= k < |a| ==> a[k] < |txids|
    requires forall k :: 0 <= k < |b| ==> b[k] < |txids|
    ensures forall k :: 0 <= k < |a + b| ==> (a + b)[k] < |txids|
    ensures Pick(txids, a + b) == Pick(txids, a) + Pick(txids, b)
  {
  }

  lemma SubSlice<T>(data: seq<T>, start: nat, part: seq<T>, from: nat, len: nat)
    requires start + |part| <= |data| && data[start..start + |part|] == part && from + len <= |part|
    ensures data[start + from..start + from + len] == part[from..from + len]
  {
    var piece, wanted := data[start + from..start + from + len], part[from..from + len];
    forall k | 0 <= k < len ensures piece[k] == wanted[k] {
      assert data[start..start + |part|][from + k] == data[start + from + k];
    }
  }

  // ----- bits as bytes -----

  /** Eight bits to a byte, least significant first; the last byte is padded with zeros. */
  ghost predicate IsPacking(bits: seq<bool>, bytes: seq<bv8>)
  {
    && |bytes| == (|bits| + 7) / 8
    && forall p :: 0 <= p < 8 * |bytes| ==> (Test(bytes[p / 8], p % 8) <==> p < |bits| && bits[p])
  }

  method Pack(bits: seq<bool>) returns (bytes: seq<bv8>)
    ensures IsPacking(bits, bytes)
  {
    hide Test, Mask;
    bytes := seq((|bits| + 7) / 8, _ => 0);
    forall j: nat | j < 8 ensures !Test(0, j) { NoBits(j); }
    var p := 0;
    while p < |bits|
      invariant 0 <= p <= |bits| && |bytes| == (|bits| + 7) / 8
      invariant forall q :: 0 <= q < 8 * |bytes| ==> (Test(bytes[q / 8], q % 8) <==> q < p && bits[q])
    {
      if bits[p] {
        var was := bytes;
        bytes := bytes[p / 8 := bytes[p / 8] | Mask(p % 8)];
        forall q | 0 <= q < 8 * |bytes| ensures Test(bytes[q / 8], q % 8) <==> q < p + 1 && bits[q] {
          SetTest(was[p / 8], p % 8, q % 8);
        }
      }
      p := p + 1;
    }
  }

  function Unpacked(bytes: seq<bv8>): seq<bool>
  {
    seq(|bytes| * 8, p requires 0 <= p < |bytes| * 8 => Test(bytes[p / 8], p % 8))
  }

  method Unpack(bytes: seq<bv8>) returns (bits: seq<bool>)
    ensures bits == Unpacked(bytes)
  {
    bits := [];
    var p := 0;
    while p < |bytes| * 8
      invariant 0 <= p <= |bytes| * 8 && bits == Unpacked(bytes)[..p]
    {
      bits := bits + [bytes[p / 8] & Mask(p % 8) != 0];
      assert Unpacked(bytes)[..p + 1] == Unpacked(bytes)[..p] + [Unpacked(bytes)[p]];
      p := p + 1;
    }
  }

  /** Unpacking gives the bits back, followed by fewer than eight zeros. */
  lemma UnpackPack(bits: seq<bool>, bytes: seq<bv8>)
    requires IsPacking(bits, bytes)
    ensures bits <= Unpacked(bytes) && |bits| <= |Unpacked(bytes)| < |bits| + 8
    ensures forall p :: |bits| <= p < |Unpacked(bytes)| ==> !Unpacked(bytes)[p]
  {
  }

  /** Completeness: for distinct transactions within the size limit, building, packing, unpacking and
      extracting returns the merkle root and exactly the matched transactions with their positions, in
      order; the stored hashes stay within both bounds. */
  lemma Complete(hash: Combine, txids: seq<Hash>, matches: seq<bool>, bytes: seq<bv8>)
    requires Injective(hash) && 0 < |txids| <= MAX_TRANSACTIONS && |matches| == |txids|
    requires Distinct(txids)
    requires Covers(|txids|, Height(|txids|), 0)
    requires IsPacking(Build(hash, txids, matches, Height(|txids|), 0).bits, bytes)
    ensures var b := Build(hash, txids, matches, Height(|txids|), 0);
            var chosen := Selected(matches, 0, |txids|);
            && ExtractMatches(hash, |txids|, Unpacked(bytes), b.hashes, []) ==
                  (MerkleRoot(hash, txids), Pick(txids, chosen), chosen)
            && |b.hashes| <= |txids| && |b.hashes| <= 1 + |chosen| * Height(|txids|)
  {
    hide Build, Extract, CalcHash, Selected, Pick, Unpacked, IsPacking, HashCap, Pow, Covers, Lo, Hi;
    var n := |txids|;
    var h := Height(n);
    RootCoversAll(n);
    var b := Build(hash, txids, matches, h, 0);
    var bits := Unpacked(bytes);
    BuildSizes(hash, txids, matches, h, 0);
    CapMeaning(|Selected(matches, 0, n)|, h);
    UnpackPack(b.bits, bytes);
    var c := Cursor(0, 0, [], [], false);
    assert bits[0..|b.bits|] == b.bits && b.hashes[0..|b.hashes|] == b.hashes;
    ExtractComplete(hash, txids, matches, bits, b.hashes, h, 0, c);
    var chosen := Selected(matches, 0, n);
    assert [] + Pick(txids, chosen) == Pick(txids, chosen) && [] + chosen == chosen;
    PackingSize(b.bits, bytes);
  }

  lemma CapMeaning(m: nat, h: nat)
    ensures HashCap(m, h) == 1 + m * h
  {
  }

  lemma PackingSize(bits: seq<bool>, bytes: seq<bv8>)
    requires IsPacking(bits, bytes)
    ensures (|bits| + 7) / 8 == (|Unpacked(bytes)| + 7) / 8
  {
  }
}
