/** The tree of known blocks with skip pointers, and the active chain kept as a list by height. */
module BlockChain {
  import opened Numbers
  import opened SkipHeights

  const NONE: int := -1

  /** A block index entry; blocks are named by their place in the index, parents come first. */
  datatype Block = Block(prev: int, skip: int, height: nat)

  // ----- ancestors -----

  /** Parents come before children and are one lower; only the first of a line has none. */
  ghost predicate Linked(blocks: seq<Block>)
  {
    forall i :: 0 <= i < |blocks| ==>
      if blocks[i].prev == NONE then blocks[i].height == 0
      else 0 <= blocks[i].prev < i && blocks[i].height == blocks[blocks[i].prev].height + 1
  }

  /** The plain walk along parents. */
  ghost function Ancestor(blocks: seq<Block>, i: nat, h: nat): (r: nat)
    requires Linked(blocks) && i < |blocks| && h <= blocks[i].height
    ensures r <= i && blocks[r].height == h
    decreases i
  {
    if blocks[i].height == h then i else Ancestor(blocks, blocks[i].prev, h)
  }

  lemma {:induction false} AncestorTrans(blocks: seq<Block>, i: nat, mid: nat, h: nat)
    requires Linked(blocks) && i < |blocks| && h <= mid <= blocks[i].height
    ensures Ancestor(blocks, Ancestor(blocks, i, mid), h) == Ancestor(blocks, i, h)
    decreases i
  {
    if blocks[i].height > mid {
      AncestorTrans(blocks, blocks[i].prev, mid, h);
    }
  }

  /** Skip pointers that have been built lead to the ancestor at the skip height. */
  ghost predicate SkipsOk(blocks: seq<Block>)
    requires Linked(blocks)
  {
    forall i :: 0 <= i < |blocks| && blocks[i].skip != NONE ==>
      && blocks[i].height >= 1
      && blocks[i].skip == Ancestor(blocks, i, GetSkipHeight(blocks[i].height))
  }

  /** Every block but the first of a line has its skip pointer. */
  ghost predicate AllSkip(blocks: seq<Block>)
  {
    forall i :: 0 <= i < |blocks| && blocks[i].prev != NONE ==> blocks[i].skip != NONE
  }

  ghost predicate TreeOk(blocks: seq<Block>) { Linked(blocks) && SkipsOk(blocks) }

  /** Ancestors do not change when blocks are added or skip pointers set. */
  lemma {:induction false} AncestorStable(a: seq<Block>, b: seq<Block>, i: nat, h: nat)
    requires Linked(a) && Linked(b) && |a| <= |b| && i < |a| && h <= a[i].height
    requires forall k :: 0 <= k < |a| ==> a[k].prev == b[k].prev && a[k].height == b[k].height
    ensures Ancestor(a, i, h) == Ancestor(b, i, h)
    decreases i
  {
    if a[i].height > h {
      AncestorStable(a, b, a[i].prev, h);
    }
  }

  /** Both the parent and the skip pointer, where it does not overshoot, lead on to the same ancestor. */
  lemma WalkOn(blocks: seq<Block>, i: nat, h: nat)
    requires TreeOk(blocks) && i < |blocks| && h < blocks[i].height
    ensures var b := blocks[i];
      && 0 <= b.prev < i && blocks[b.prev].height == b.height - 1
      && Ancestor(blocks, b.prev, h) == Ancestor(blocks, i, h)
    ensures var b := blocks[i];
      b.skip != NONE && h <= GetSkipHeight(b.height) ==>
        && 0 <= b.skip <= i && blocks[b.skip].height == GetSkipHeight(b.height)
        && Ancestor(blocks, b.skip, h) == Ancestor(blocks, i, h)
  {
    hide GetSkipHeight;
    if h <= GetSkipHeight(blocks[i].height) {
      AncestorTrans(blocks, i, GetSkipHeight(blocks[i].height), h);
    }
  }

  /** Setting a skip pointer to the ancestor at the skip height. */
  lemma SkipSet(blocks: seq<Block>, i: nat, skip: int)
    requires TreeOk(blocks) && i < |blocks| && blocks[i].height >= 1
    requires skip == Ancestor(blocks, i, GetSkipHeight(blocks[i].height))
    ensures var after := blocks[i := blocks[i].(skip := skip)];
      TreeOk(after) && skip == Ancestor(after, i, GetSkipHeight(blocks[i].height))
  {
    hide GetSkipHeight, Ancestor;
    var after := blocks[i := blocks[i].(skip := skip)];
    assert Linked(after);
    forall k | 0 <= k < |after| && after[k].skip != NONE
      ensures after[k].height >= 1 && after[k].skip == Ancestor(after, k, GetSkipHeight(after[k].height))
    {
      AncestorStable(blocks, after, k, GetSkipHeight(after[k].height));
    }
    AncestorStable(blocks, after, i, GetSkipHeight(after[i].height));
  }

  class BlockIndex {
    var blocks: seq<Block>

    ghost predicate Valid() reads this { TreeOk(blocks) }

    constructor ()
      ensures Valid() && blocks == []
    {
      blocks := [];
    }

    /** A new block on top of a known one, or the first of a line; its skip pointer is not yet built. */
    method AddBlock(prev: int) returns (i: nat)
      requires Valid() && NONE <= prev < |blocks|
      modifies this
      ensures Valid() && i == |old(blocks)|
      ensures blocks == old(blocks) + [Block(prev, NONE, if prev == NONE then 0 else old(blocks)[prev].height + 1)]
    {
      i := |blocks|;
      ghost var before := blocks;
      blocks := blocks + [Block(prev, NONE, if prev == NONE then 0 else blocks[prev].height + 1)];
      forall k | 0 <= k < |blocks| && blocks[k].skip != NONE
        ensures blocks[k].height >= 1 && blocks[k].skip == Ancestor(blocks, k, GetSkipHeight(blocks[k].height))
      {
        AncestorStable(before, blocks, k, GetSkipHeight(blocks[k].height));
      }
    }

    /** The ancestor at a height, by skip pointers where they do not overshoot; NONE if out of range. With
        all skip pointers built, a chain of up to 2^18 blocks takes at most 110 steps. */
    method GetAncestor(i: nat, height: int) returns (r: int, ghost steps: nat)
      requires Valid() && i < |blocks|
      ensures if 0 <= height <= blocks[i].height then r == Ancestor(blocks, i, height) else r == NONE
      ensures AllSkip(blocks) && 0 <= height <= blocks[i].height ==> steps == Steps(blocks[i].height, height)
      ensures AllSkip(blocks) && blocks[i].height <= Pow(2, 18) ==> steps <= 110
    {
      hide Pow, Steps, GetSkipHeight, Linked, SkipsOk, Ancestor;
      steps := 0;
      if height > blocks[i].height || height < 0 {
        return NONE, steps;
      }
      var pindexWalk := i;
      var heightWalk := blocks[i].height;
      while heightWalk > height
        invariant 0 <= pindexWalk < |blocks| && heightWalk == blocks[pindexWalk].height >= height
        invariant Ancestor(blocks, pindexWalk, height) == Ancestor(blocks, i, height)
        invariant AllSkip(blocks) ==> steps + Steps(heightWalk, height) == Steps(blocks[i].height, height)
        decreases heightWalk
      {
        var heightSkip := GetSkipHeight(heightWalk);
        var heightSkipPrev := GetSkipHeight(heightWalk - 1);
        StepIs(heightWalk, height);
        WalkOn(blocks, pindexWalk, height);
        steps := steps + 1;
        if blocks[pindexWalk].skip != NONE &&
           (heightSkip == height ||
            (heightSkip > height && !(heightSkipPrev < heightSkip - 2 && heightSkipPrev >= height))) {
          pindexWalk := blocks[pindexWalk].skip;
          heightWalk := heightSkip;
        } else {
          assert blocks[pindexWalk].prev != NONE;
          pindexWalk := blocks[pindexWalk].prev;
          heightWalk := heightWalk - 1;
        }
      }
      SameHeight(height);
      AncestorSelf(blocks, pindexWalk);
      if blocks[i].height <= Pow(2, 18) { Within110(blocks[i].height, height); }
      r := pindexWalk;
    }

    method BuildSkip(i: nat)
      requires Valid() && i < |blocks|
      modifies this
      ensures Valid() && |blocks| == |old(blocks)|
      ensures blocks[i].prev != NONE ==> blocks[i].skip == Ancestor(blocks, i, GetSkipHeight(blocks[i].height))
      ensures blocks == old(blocks)[i := old(blocks)[i].(skip := blocks[i].skip)]
      ensures AllSkip(old(blocks)[..i]) && i + 1 == |blocks| ==> AllSkip(blocks)
    {
      hide GetSkipHeight, SkipsOk, Ancestor;
      if blocks[i].prev != NONE {
        WalkOn(blocks, i, GetSkipHeight(blocks[i].height));
        var skip, steps := GetAncestor(blocks[i].prev, GetSkipHeight(blocks[i].height));
        SkipSet(blocks, i, skip);
        blocks := blocks[i := blocks[i].(skip := skip)];
      }
    }
  }

  // ----- the active chain -----

  /** The entries that are set belong to one line: each has the right height and all its ancestors below it. */
  ghost predicate Line(blocks: seq<Block>, v: seq<int>, upto: nat)
    requires Linked(blocks)
  {
    && upto <= |v|
    && (forall h :: 0 <= h < upto ==> 0 <= v[h] < |blocks| && blocks[v[h]].height == h)
    && (forall g, h :: 0 <= g <= h < upto ==> v[g] == Ancestor(blocks, v[h], g))
  }

  /** The list names the ancestors of its last block, by height. */
  ghost predicate ChainOk(blocks: seq<Block>, v: seq<int>)
    requires Linked(blocks)
  {
    Line(blocks, v, |v|)
  }

  /** A list whose top is a block and which below it is that block's line. */
  lemma LineOf(blocks: seq<Block>, v: seq<int>, tip: nat)
    requires Linked(blocks) && tip < |blocks| && |v| == blocks[tip].height + 1
    requires forall h :: 0 <= h < |v| ==> v[h] == Ancestor(blocks, tip, h)
    ensures ChainOk(blocks, v)
  {
    forall g, h | 0 <= g <= h < |v| ensures v[g] == Ancestor(blocks, v[h], g) {
      AncestorTrans(blocks, tip, h, g);
    }
  }

  ghost predicate IsAncestor(blocks: seq<Block>, a: nat, i: nat)
    requires Linked(blocks) && a < |blocks| && i < |blocks|
  {
    blocks[a].height <= blocks[i].height && a == Ancestor(blocks, i, blocks[a].height)
  }

  class Chain {
    const index: BlockIndex
    var vChain: seq<int>

    ghost predicate Valid()
      reads this, index
    {
      index.Valid() && ChainOk(index.blocks, vChain)
    }

    constructor (index: BlockIndex)
      requires index.Valid()
      ensures Valid() && vChain == [] && this.index == index
    {
      this.index := index;
      vChain := [];
    }

    function Height(): int reads this { |vChain| - 1 }

    function At(h: int): int reads this { if h < 0 || h >= |vChain| then NONE else vChain[h] }

    predicate Contains(i: nat)
      requires i < |index.blocks|
      reads this, index
    {
      At(index.blocks[i].height) == i
    }

    /** Switches to another tip, rewriting only down to the first block both lines share. */
    method SetTip(pindex: int)
      requires Valid() && NONE <= pindex < |index.blocks|
      modifies this
      ensures Valid()
      ensures pindex == NONE ==> vChain == []
      ensures pindex != NONE ==> |vChain| == index.blocks[pindex].height + 1
      ensures pindex != NONE ==> forall h :: 0 <= h < |vChain| ==> vChain[h] == Ancestor(index.blocks, pindex, h)
    {
      hide SkipsOk, Ancestor, Line, Linked;
      if pindex == NONE {
        vChain := [];
        LineEmpty(index.blocks);
        return;
      }
      AncestorSelf(index.blocks, pindex);
      var b := index.blocks;
      var size := index.blocks[pindex].height + 1;
      ghost var old0 := vChain;
      vChain := if size <= |vChain| then vChain[..size] else vChain + seq(size - |vChain|, _ => NONE);
      var walk := pindex;
      ghost var low := size;
      while walk != NONE && vChain[index.blocks[walk].height] != walk
        invariant NONE <= walk < |b| && index.blocks == b && |vChain| == size && TreeOk(b)
        invariant 0 <= low <= size && low == if walk == NONE then 0 else b[walk].height + 1
        invariant walk != NONE ==> walk == Ancestor(b, pindex, low - 1)
        invariant forall h :: low <= h < size ==> vChain[h] == Ancestor(b, pindex, h)
        invariant forall h :: 0 <= h < low ==> vChain[h] == if h < |old0| then old0[h] else NONE
        decreases low
      {
        vChain := vChain[b[walk].height := walk];
        low := low - 1;
        PrevFacts(b, walk);
        if low > 0 { AncestorStep(b, pindex, low); }
        walk := b[walk].prev;
      }
      if walk != NONE {
        SharedBelow(b, old0, pindex, b[walk].height);
      }
      LineOf(b, vChain, pindex);
    }

    /** The highest block that is both in the chain and an ancestor of the given block. */
    method FindFork(pindex: int) returns (r: int)
      requires Valid() && NONE <= pindex < |index.blocks|
      ensures NONE <= r < |index.blocks|
      ensures pindex == NONE ==> r == NONE
      ensures r != NONE ==> Contains(r) && IsAncestor(index.blocks, r, pindex)
      ensures pindex != NONE ==>
                forall h: nat :: h <= index.blocks[pindex].height && (r == NONE || h > index.blocks[r].height) ==>
                  !Contains(Ancestor(index.blocks, pindex, h))
    {
      hide SkipsOk, Ancestor, Line, Linked;
      if pindex == NONE {
        return NONE;
      }
      AncestorSelf(index.blocks, pindex);
      ghost var b := index.blocks;
      r := pindex;
      if index.blocks[pindex].height > Height() {
        ghost var steps;
        r, steps := index.GetAncestor(pindex, Height());
      }
      ghost var low := if r == NONE then 0 else b[r].height + 1;
      while r != NONE && !Contains(r)
        invariant NONE <= r < |index.blocks| && index.blocks == b
        invariant 0 <= low <= b[pindex].height + 1 && low == if r == NONE then 0 else b[r].height + 1
        invariant r != NONE ==> r == Ancestor(b, pindex, low - 1)
        invariant forall h :: low <= h <= b[pindex].height ==> At(h) != Ancestor(b, pindex, h)
        decreases low
      {
        low := low - 1;
        PrevFacts(b, r);
        if low > 0 { AncestorStep(b, pindex, low); }
        r := index.blocks[r].prev;
      }
    }

    /** A list of ever sparser ancestors, from the given block (or the tip) down to the first of its line. */
    method GetLocator(pindex: int) returns (vHave: seq<nat>)
      requires Valid() && NONE <= pindex < |index.blocks|
      ensures var start := if pindex == NONE then At(Height()) else pindex;
              if start == NONE then vHave == []
              else
                && vHave != [] && vHave[0] == start
                && (forall k :: 0 <= k < |vHave| ==> vHave[k] < |index.blocks|)
                && index.blocks[vHave[|vHave| - 1]].height == 0
                && (forall k :: 0 <= k < |vHave| ==> IsAncestor(index.blocks, vHave[k], start))
                && (forall k :: 0 <= k < |vHave| - 1 ==>
                      index.blocks[vHave[k + 1]].height < index.blocks[vHave[k]].height)
                && (forall k :: 0 <= k < |vHave| ==>
                      index.blocks[vHave[k]].height == LocatorHeight(index.blocks[start].height, k))
                && (|vHave| >= 12 ==> Pow(2, |vHave| - 12) < index.blocks[start].height)
    {
      hide SkipsOk, Linked, LocatorHeight, LocatorStep, Locates, IsAncestor, Line;
      var b := index.blocks;
      var nStep := 1;
      vHave := [];
      var p := pindex;
      TipKnown(b, vChain);
      if p == NONE {
        p := At(Height());
      }
      if p == NONE {
        return;
      }
      var start := p;
      ghost var top := b[start].height;
      var finished := false;
      LocatorStart(b, start);
      while !finished
        invariant 0 <= p < |b| && index.blocks == b && TreeOk(b) && ChainOk(b, vChain) && Locates(b, start, vHave)
        invariant !finished ==> IsAncestor(b, p, start) && b[p].height == LocatorHeight(top, |vHave|)
        invariant !finished ==> nStep == LocatorStep(|vHave|)
        invariant !finished && vHave != [] ==> LocatorHeight(top, |vHave| - 1) > 0
        invariant finished ==> vHave != [] && LocatorHeight(top, |vHave| - 1) == 0
        invariant |vHave| >= 2 ==> LocatorHeight(top, |vHave| - 2) > 0
        decreases !finished, b[p].height
      {
        LocatorNext(top, |vHave|);
        LocatesNext(b, start, vHave, p);
        vHave := vHave + [p];
        if b[p].height == 0 {
          finished := true;
        } else {
          var nHeight := if b[p].height - nStep < 0 then 0 else b[p].height - nStep;
          p := StepBack(p, nHeight, start);
          if |vHave| > 10 {
            nStep := nStep * 2;
          }
        }
      }
      LocatorDone(b, start, vHave);
    }

    /** The ancestor at a lower height, straight from the chain if the block is in it. */
    method StepBack(p: nat, nHeight: nat, ghost start: nat) returns (r: nat)
      requires Valid() && p < |index.blocks| && start < |index.blocks| && IsAncestor(index.blocks, p, start)
      requires nHeight < index.blocks[p].height
      ensures r < |index.blocks| && IsAncestor(index.blocks, r, start) && index.blocks[r].height == nHeight
    {
      hide SkipsOk, Linked;
      AncestorTrans(index.blocks, start, index.blocks[p].height, nHeight);
      if Contains(p) {
        r := At(nHeight);
      } else {
        ghost var steps;
        r, steps := index.GetAncestor(p, nHeight);
      }
    }
  }

  lemma TipKnown(blocks: seq<Block>, v: seq<int>)
    requires Linked(blocks) && ChainOk(blocks, v)
    ensures v != [] ==> 0 <= v[|v| - 1] < |blocks|
  {
    hide Linked;
  }

  /** The k-th block listed is the ancestor at the k-th height. */
  ghost predicate Locates(blocks: seq<Block>, start: nat, v: seq<nat>)
    requires Linked(blocks) && start < |blocks|
  {
    forall k :: 0 <= k < |v| ==>
      v[k] < |blocks| && IsAncestor(blocks, v[k], start) && blocks[v[k]].height ==
          LocatorHeight(blocks[start].height, k)
  }

  lemma LocatesNext(blocks: seq<Block>, start: nat, v: seq<nat>, p: nat)
    requires Linked(blocks) && start < |blocks| && Locates(blocks, start, v) && p < |blocks|
    requires IsAncestor(blocks, p, start)
    requires blocks[p].height == LocatorHeight(blocks[start].height, |v|)
    ensures Locates(blocks, start, v + [p])
  {
    hide Linked, LocatorHeight, IsAncestor;
  }

  lemma LocatorDone(blocks: seq<Block>, start: nat, v: seq<nat>)
    requires Linked(blocks) && start < |blocks| && Locates(blocks, start, v) && v != []
    requires LocatorHeight(blocks[start].height, |v| - 1) == 0
    requires |v| >= 2 ==> LocatorHeight(blocks[start].height, |v| - 2) > 0
    ensures v[0] == start && (forall k :: 0 <= k < |v| ==> v[k] < |blocks| && IsAncestor(blocks, v[k], start))
    ensures forall k :: 0 <= k < |v| - 1 ==> blocks[v[k + 1]].height < blocks[v[k]].height
    ensures forall k :: 0 <= k < |v| ==> blocks[v[k]].height == LocatorHeight(blocks[start].height, k)
    ensures |v| >= 12 ==> Pow(2, |v| - 12) < blocks[start].height
  {
    hide Linked, LocatorHeight, LocatorStep;
    var top := blocks[start].height;
    LocatorStart(blocks, start);
    AncestorSelf(blocks, start);
    forall k | 0 <= k < |v| - 1 ensures blocks[v[k + 1]].height < blocks[v[k]].height {
      LocatorHigher(top, k, |v| - 2);
      LocatorNext(top, k);
      assert blocks[v[k + 1]].height == LocatorHeight(top, k + 1);
    }
    if |v| >= 12 { LocatorLength(top, |v| - 1); }
  }

  /** How far back the k-th entry of a locator is: ten single steps, then steps that double. */
  function LocatorBack(k: nat): nat { if k <= 10 then k else 9 + Pow(2, k - 10) }

  function LocatorStep(k: nat): nat { if k <= 10 then 1 else Pow(2, k - 10) }

  function LocatorHeight(height: nat, k: nat): nat
  {
    if height < LocatorBack(k) then 0 else height - LocatorBack(k)
  }

  lemma LocatorStart(blocks: seq<Block>, start: nat)
    requires Linked(blocks) && start < |blocks|
    ensures Locates(blocks, start, []) && LocatorStep(0) == 1 && IsAncestor(blocks, start, start)
    ensures LocatorHeight(blocks[start].height, 0) == blocks[start].height
  {
    hide Linked;
    AncestorSelf(blocks, start);
  }

  /** Earlier entries are at least as high. */
  lemma {:induction false} LocatorHigher(height: nat, j: nat, k: nat)
    requires j <= k && LocatorHeight(height, k) > 0
    ensures LocatorHeight(height, j) > 0
    decreases k
  {
    hide LocatorHeight, LocatorStep;
    if j < k {
      LocatorBefore(height, k - 1);
      LocatorHigher(height, j, k - 1);
    }
  }

  lemma LocatorBefore(height: nat, k: nat)
    ensures LocatorHeight(height, k + 1) > 0 ==> LocatorHeight(height, k) > 0
  {
    if k == 10 {
      assert Pow(2, 1) == 2 * Pow(2, 0);
    }
  }

  lemma LocatorNext(height: nat, k: nat)
    ensures LocatorStep(k + 1) == if k + 1 > 10 then LocatorStep(k) * 2 else LocatorStep(k)
    ensures LocatorStep(k) >= 1
    ensures var h := LocatorHeight(height, k);
      h > 0 ==> LocatorHeight(height, k + 1) == if h - LocatorStep(k) < 0 then 0 else h - LocatorStep(k)
  {
    if k == 10 {
      assert Pow(2, 1) == 2 * Pow(2, 0);
    }
  }

  /** An entry after the eleventh is reached only below a block that is high enough for it. */
  lemma LocatorLength(height: nat, k: nat)
    ensures k >= 11 && LocatorHeight(height, k - 1) > 0 ==> Pow(2, k - 11) < height
  {
  }

  lemma PrevFacts(blocks: seq<Block>, i: nat)
    requires Linked(blocks) && i < |blocks|
    ensures if blocks[i].prev == NONE then blocks[i].height == 0
            else 0 <= blocks[i].prev < i && blocks[i].height == blocks[blocks[i].prev].height + 1
  {
  }

  lemma LineEmpty(blocks: seq<Block>)
    requires Linked(blocks)
    ensures ChainOk(blocks, [])
  {
  }

  lemma AncestorSelf(blocks: seq<Block>, i: nat)
    requires Linked(blocks) && i < |blocks|
    ensures Ancestor(blocks, i, blocks[i].height) == i
  {
  }

  /** Once a block of the new line is found in the old list, everything below it is already in place. */
  lemma SharedBelow(blocks: seq<Block>, v: seq<int>, tip: nat, top: nat)
    requires Linked(blocks) && ChainOk(blocks, v) && tip < |blocks| && top <= blocks[tip].height
    requires top < |v| && v[top] == Ancestor(blocks, tip, top)
    ensures forall h :: 0 <= h <= top ==> v[h] == Ancestor(blocks, tip, h)
  {
    forall h | 0 <= h <= top ensures v[h] == Ancestor(blocks, tip, h) {
      AncestorTrans(blocks, tip, top, h);
    }
  }

  lemma AncestorStep(blocks: seq<Block>, i: nat, h: nat)
    requires Linked(blocks) && i < |blocks| && 0 < h <= blocks[i].height
    ensures var a := Ancestor(blocks, i, h);
            blocks[a].prev != NONE && blocks[a].prev == Ancestor(blocks, i, h - 1)
  {
    AncestorTrans(blocks, i, h, h - 1);
  }
}
