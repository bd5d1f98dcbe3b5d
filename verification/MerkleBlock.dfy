/** The partial merkle tree as an object: the recursive traversals that append to and
    consume its two lists. */
module MerkleBlock {
  import P = PartialMerkle
  import N = Numbers

  class PartialMerkleTree {
    const hash: P.Combine
    var nTransactions: nat
    var vBits: seq<bool>
    var vHash: seq<P.Hash>
    var fBad: bool

    /** Encodes the chosen transactions of a block. */
    constructor FromBlock(hash: P.Combine, vTxid: seq<P.Hash>, vMatch: seq<bool>)
      requires |vTxid| > 0 && |vMatch| == |vTxid|
      ensures P.Covers(|vTxid|, P.Height(|vTxid|), 0)
      ensures P.Partial(vBits, vHash) == P.Build(hash, vTxid, vMatch, P.Height(|vTxid|), 0)
      ensures nTransactions == |vTxid| && !fBad && this.hash == hash
    {
      this.hash := hash;
      nTransactions, vBits, vHash, fBad := |vTxid|, [], [], false;
      new;
      P.RootCoversAll(|vTxid|);
      var nHeight := CalcHeight();
      TraverseAndBuild(nHeight, 0, vTxid, vMatch);
    }

    /** A tree as it arrives from the network. */
    constructor Received(hash: P.Combine, nTransactions: nat, vHash: seq<P.Hash>, vBytes: seq<bv8>)
      ensures this.hash == hash && this.nTransactions == nTransactions && this.vHash == vHash
      ensures vBits == P.Unpacked(vBytes) && !fBad
    {
      this.hash, this.nTransactions, this.vHash, fBad := hash, nTransactions, vHash, false;
      new;
      vBits := P.Unpack(vBytes);
    }

    method CalcHeight() returns (nHeight: nat)
      ensures nHeight == P.Height(nTransactions)
    {
      nHeight := 0;
      while P.Width(nTransactions, nHeight) > 1
        invariant P.HeightFrom(nTransactions, nHeight) == P.Height(nTransactions)
        decreases P.Width(nTransactions, nHeight)
      {
        P.WidthShrinks(nTransactions, nHeight);
        nHeight := nHeight + 1;
      }
    }

    method TraverseAndBuild(height: nat, pos: nat, vTxid: seq<P.Hash>, vMatch: seq<bool>)
      requires nTransactions == |vTxid| == |vMatch| && P.Covers(|vTxid|, height, pos)
      modifies this`vBits, this`vHash
      ensures var b := P.Build(hash, vTxid, vMatch, height, pos);
              vBits == old(vBits) + b.bits && vHash == old(vHash) + b.hashes
      decreases height
    {
      hide N.Pow, P.Covers, P.Lo, P.Hi, P.Width, P.AnyMatch, P.CalcHash, P.Build;
      var fParentOfMatch := ParentOfMatch(height, pos, vMatch);
      vBits := vBits + [fParentOfMatch];
      if height == 0 || !fParentOfMatch {
        P.BuildLeaf(hash, vTxid, vMatch, height, pos);
        vHash := vHash + [P.CalcHash(hash, vTxid, height, pos)];
      } else {
        P.Children(nTransactions, height, pos);
        P.BuildNode(hash, vTxid, vMatch, height, pos);
        TraverseAndBuild(height - 1, pos * 2, vTxid, vMatch);
        if pos * 2 + 1 < P.Width(nTransactions, height - 1) {
          TraverseAndBuild(height - 1, pos * 2 + 1, vTxid, vMatch);
        }
      }
    }

    method ParentOfMatch(height: nat, pos: nat, vMatch: seq<bool>) returns (f: bool)
      requires nTransactions == |vMatch| && P.Covers(|vMatch|, height, pos)
      ensures f == P.AnyMatch(vMatch, P.Lo(height, pos), P.Hi(nTransactions, height, pos))
    {
      hide N.Pow;
      f := false;
      var p := pos * N.Pow(2, height);
      var end := (pos + 1) * N.Pow(2, height);
      P.NonEmptyRange(nTransactions, height, pos);
      while p < end && p < nTransactions
        invariant P.Lo(height, pos) <= p <= P.Hi(nTransactions, height, pos)
        invariant f == P.AnyMatch(vMatch, P.Lo(height, pos), p)
      {
        f := f || vMatch[p];
        p := p + 1;
      }
    }

    method TraverseAndExtract(height: nat, pos: nat, bitsUsed: nat, hashUsed: nat, matched: seq<P.Hash>,
                              indices: seq<nat>)
        returns (h: P.Hash, nBitsUsed: nat, nHashUsed: nat, vMatch: seq<P.Hash>, vnIndex: seq<nat>)
      modifies this`fBad
      ensures (h, P.Cursor(nBitsUsed, nHashUsed, vMatch, vnIndex, fBad)) ==
              P.Extract(hash, nTransactions, vBits, vHash, height, pos,
                  P.Cursor(bitsUsed, hashUsed, matched, indices, old(fBad)))
      decreases height
    {
      hide P.Width;
      nBitsUsed, nHashUsed, vMatch, vnIndex := bitsUsed, hashUsed, matched, indices;
      if nBitsUsed >= |vBits| {
        fBad := true;
        return P.NULL, nBitsUsed, nHashUsed, vMatch, vnIndex;
      }
      var fParentOfMatch := vBits[nBitsUsed];
      nBitsUsed := nBitsUsed + 1;
      if height == 0 || !fParentOfMatch {
        if nHashUsed >= |vHash| {
          fBad := true;
          return P.NULL, nBitsUsed, nHashUsed, vMatch, vnIndex;
        }
        h := vHash[nHashUsed];
        nHashUsed := nHashUsed + 1;
        if height == 0 && fParentOfMatch {
          vMatch := vMatch + [h];
          vnIndex := vnIndex + [pos];
        }
      } else {
        var left, right;
        left, nBitsUsed, nHashUsed, vMatch, vnIndex := TraverseAndExtract(height - 1, pos * 2, nBitsUsed, nHashUsed,
            vMatch, vnIndex);
        if pos * 2 + 1 < P.Width(nTransactions, height - 1) {
          right, nBitsUsed, nHashUsed, vMatch, vnIndex := TraverseAndExtract(height - 1, pos * 2 + 1, nBitsUsed,
              nHashUsed, vMatch, vnIndex);
          if right == left {
            fBad := true;
          }
        } else {
          right := left;
        }
        h := hash(left, right);
      }
    }

    /** The positions are appended to what the caller passes; the matches start afresh. */
    method ExtractMatches(vnIndex0: seq<nat>) returns (root: P.Hash, vMatch: seq<P.Hash>, vnIndex: seq<nat>)
      requires !fBad
      modifies this`fBad
      ensures (root, vMatch, vnIndex) == P.ExtractMatches(hash, nTransactions, vBits, vHash, vnIndex0)
    {
      vMatch, vnIndex := [], vnIndex0;
      if nTransactions == 0 {
        return P.NULL, vMatch, vnIndex;
      }
      if nTransactions > P.MAX_BLOCK_BASE_SIZE / 60 {
        return P.NULL, vMatch, vnIndex;
      }
      if |vHash| > nTransactions {
        return P.NULL, vMatch, vnIndex;
      }
      if |vBits| < |vHash| {
        return P.NULL, vMatch, vnIndex;
      }
      var nHeight := CalcHeight();
      var nBitsUsed, nHashUsed := 0, 0;
      root, nBitsUsed, nHashUsed, vMatch, vnIndex := TraverseAndExtract(nHeight, 0, nBitsUsed, nHashUsed, vMatch,
          vnIndex);
      if fBad {
        return P.NULL, vMatch, vnIndex;
      }
      if (nBitsUsed + 7) / 8 != (|vBits| + 7) / 8 {
        return P.NULL, vMatch, vnIndex;
      }
      if nHashUsed != |vHash| {
        return P.NULL, vMatch, vnIndex;
      }
    }
  }

  /** Sending a proof over the network and reading it: the receiver obtains the merkle root and exactly
      the chosen transactions. */
  method SendAndReceive(hash: P.Combine, vTxid: seq<P.Hash>, vMatch: seq<bool>) returns (root: P.Hash,
                        found: seq<P.Hash>, positions: seq<nat>)
    requires P.Injective(hash) && 0 < |vTxid| <= P.MAX_TRANSACTIONS && |vMatch| == |vTxid|
    requires forall i, j :: 0 <= i < j < |vTxid| ==> vTxid[i] != vTxid[j]
    ensures root == P.MerkleRoot(hash, vTxid)
    ensures positions == P.Selected(vMatch, 0, |vTxid|) && found == P.Pick(vTxid, positions)
  {
    hide P.Build, P.ExtractMatches, P.MerkleRoot, P.Selected, P.Pick, P.Covers, P.Height;
    var sent := new PartialMerkleTree.FromBlock(hash, vTxid, vMatch);
    var bytes := P.Pack(sent.vBits);
    P.Complete(hash, vTxid, vMatch, bytes);
    var received := new PartialMerkleTree.Received(hash, sent.nTransactions, sent.vHash, bytes);
    root, found, positions := received.ExtractMatches([]);
  }
}
