/** The Merkle tree of `minichain/block.py`: the in-place level loop, and when two leaf lists
    can share a root. */
module Merkle {
  import opened Prelude

  type PairHash = (Hash, Hash) -> Hash

  // The level above a list of nodes; a last odd node is paired with itself.
  function Level(H: PairHash, nodes: seq<Hash>): (r: seq<Hash>)
    ensures |r| == (|nodes| + 1) / 2
  {
    seq((|nodes| + 1) / 2, i requires 0 <= i < (|nodes| + 1) / 2 =>
      H(nodes[2 * i], if 2 * i + 1 < |nodes| then nodes[2 * i + 1] else nodes[2 * i]))
  }

  function Top(H: PairHash, nodes: seq<Hash>): Hash
    requires nodes != []
    decreases |nodes|
  {
    if |nodes| == 1 then nodes[0] else Top(H, Level(H, nodes))
  }

  function Root(H: PairHash, leaves: seq<Hash>): Option<Hash> {
    if leaves == [] then None else Some(Top(H, leaves))
  }

  function TxIds(P: Params, txs: seq<Tx>): (ids: seq<Hash>)
    ensures |ids| == |txs| && forall i | 0 <= i < |txs| :: ids[i] == P.txId(txs[i])
  {
    seq(|txs|, i requires 0 <= i < |txs| => P.txId(txs[i]))
  }

  function ReceiptHashes(P: Params, receipts: seq<Receipt>): (hashes: seq<Hash>)
    ensures |hashes| == |receipts| && forall i | 0 <= i < |receipts| :: hashes[i] == P.receiptHash(receipts[i])
  {
    seq(|receipts|, i requires 0 <= i < |receipts| => P.receiptHash(receipts[i]))
  }

  function MerkleRoot(P: Params, txs: seq<Tx>): Option<Hash> {
    Root(P.pairHash, TxIds(P, txs))
  }

  function ReceiptRoot(P: Params, receipts: seq<Receipt>): Option<Hash> {
    Root(P.pairHash, ReceiptHashes(P, receipts))
  }

  /** One round of the outer loop: pad the level if it is odd, then hash it pairwise. */
  method HashLevel(H: PairHash, nodes: seq<Hash>) returns (newLevel: seq<Hash>)
    ensures newLevel == Level(H, nodes)
  {
    var list := nodes;
    if |list| % 2 != 0 {
      list := list + [list[|list| - 1]];
    }
    newLevel := [];
    var i := 0;
    while i < |list|
      invariant 0 <= i <= |list| && i == 2 * |newLevel|
      invariant forall j | 0 <= j < |newLevel| :: newLevel[j] == H(list[2 * j], list[2 * j + 1])
    {
      newLevel := newLevel + [H(list[i], list[i + 1])];
      i := i + 2;
    }
  }

  /** `_calculate_merkle_tree`: pad the level if odd, hash it pairwise, repeat. */
  method CalculateMerkleTree(H: PairHash, hashes: seq<Hash>) returns (root: Option<Hash>)
    ensures root == Root(H, hashes)
  {
    if hashes == [] {
      return None;
    }
    var list := hashes;
    while |list| > 1
      invariant list != [] && Top(H, list) == Top(H, hashes)
      decreases |list|
    {
      list := HashLevel(H, list);
    }
    return Some(list[0]);
  }

  // ---- the tree, from the top ------------------------------------------------------------

  function Pow2(h: nat): (r: nat)
    ensures 0 < r
  {
    if h == 0 then 1 else 2 * Pow2(h - 1)
  }

  /** The tree of height h over at most 2^h leaves: a full left half and the rest, or one half
      paired with itself. */
  function Tree(H: PairHash, leaves: seq<Hash>, h: nat): Hash
    requires 0 < |leaves| <= Pow2(h)
  {
    if h == 0 then leaves[0]
    else
      var half := Pow2(h - 1);
      if |leaves| <= half then H(Tree(H, leaves, h - 1), Tree(H, leaves, h - 1))
      else H(Tree(H, leaves[..half], h - 1), Tree(H, leaves[half..], h - 1))
  }

  // The least height that holds n leaves.
  function Height(n: nat): (h: nat)
    ensures n <= Pow2(h) && (1 < n ==> 0 < h && Pow2(h - 1) < n)
  {
    if n <= 1 then 0 else Height((n + 1) / 2) + 1
  }

  // Cut at an even place, the level above falls in two as well.
  lemma LevelSplit(H: PairHash, l: seq<Hash>, k: nat)
    requires 2 * k <= |l|
    ensures Level(H, l)[..k] == Level(H, l[..2 * k]) && Level(H, l)[k..] == Level(H, l[2 * k..])
  {
  }

  lemma TreeStep(H: PairHash, l: seq<Hash>, h: nat)
    requires 0 < |l| <= Pow2(h) && 0 < h
    ensures Pow2(h) == 2 * Pow2(h - 1)
    ensures Tree(H, l, h) ==
      if |l| <= Pow2(h - 1) then H(Tree(H, l, h - 1), Tree(H, l, h - 1))
      else H(Tree(H, l[..Pow2(h - 1)], h - 1), Tree(H, l[Pow2(h - 1)..], h - 1))
  {
  }

  lemma {:induction false} TreeOfLevel(H: PairHash, l: seq<Hash>, h: nat)
    requires 0 < |l| <= Pow2(h) && 0 < h
    ensures |Level(H, l)| <= Pow2(h - 1) && Tree(H, Level(H, l), h - 1) == Tree(H, l, h)
    decreases h
  {
    hide Level, Tree, Pow2;
    TreeStep(H, l, h);
    if h == 1 {
      PairOfLeaves(H, l);
    } else {
      var up, half, quarter := Level(H, l), Pow2(h - 1), Pow2(h - 2);
      TreeStep(H, up, h - 1);
      if |l| <= half {
        TreeOfLevel(H, l, h - 1);
      } else {
        LevelSplit(H, l, quarter);
        TreeOfLevel(H, l[..half], h - 1);
        TreeOfLevel(H, l[half..], h - 1);
        assert Tree(H, up[..quarter], h - 2) == Tree(H, l[..half], h - 1);
        assert Tree(H, up[quarter..], h - 2) == Tree(H, l[half..], h - 1);
      }
    }
  }

  lemma PairOfLeaves(H: PairHash, l: seq<Hash>)
    requires 0 < |l| <= Pow2(1)
    ensures |Level(H, l)| <= Pow2(0) && Tree(H, Level(H, l), 0) == Tree(H, l, 1)
  {
  }

  /** Hashing level by level from the leaves computes the binary tree of least height. */
  lemma {:induction false} TopIsTree(H: PairHash, l: seq<Hash>)
    requires l != []
    ensures Top(H, l) == Tree(H, l, Height(|l|))
    decreases |l|
  {
    hide Level, Tree;
    if |l| > 1 {
      TopIsTree(H, Level(H, l));
      TreeOfLevel(H, l, Height(|l|));
    } else {
      OneLeaf(H, l);
    }
  }

  lemma OneLeaf(H: PairHash, l: seq<Hash>)
    requires |l| == 1
    ensures Tree(H, l, 0) == l[0]
  {
  }

  /** The roots of a block: none for an empty list, otherwise the tree over the ids of its
      transactions, or the hashes of its receipts, in order. */
  lemma BlockRoots(P: Params, txs: seq<Tx>, receipts: seq<Receipt>, ids: seq<Hash>, hashes: seq<Hash>)
    requires |ids| == |txs| && forall i | 0 <= i < |ids| :: ids[i] == P.txId(txs[i])
    requires |hashes| == |receipts| && forall i | 0 <= i < |hashes| :: hashes[i] == P.receiptHash(receipts[i])
    ensures MerkleRoot(P, txs) == if ids == [] then None else Some(Tree(P.pairHash, ids, Height(|ids|)))
    ensures ReceiptRoot(P, receipts) == if hashes == [] then None else Some(Tree(P.pairHash, hashes, Height(|hashes|)))
  {
    hide Tree, Top, Height;
    assert TxIds(P, txs) == ids && ReceiptHashes(P, receipts) == hashes;
    if ids != [] { TopIsTree(P.pairHash, ids); }
    if hashes != [] { TopIsTree(P.pairHash, hashes); }
  }

  // ---- equal lengths ---------------------------------------------------------------------

  ghost predicate Injective(H: PairHash) {
    forall a, b, c, d :: H(a, b) == H(c, d) ==> a == c && b == d
  }

  lemma LevelInjective(H: PairHash, l: seq<Hash>, m: seq<Hash>)
    requires Injective(H) && |l| == |m| && Level(H, l) == Level(H, m)
    ensures l == m
  {
    forall i | 0 <= i < |l| ensures l[i] == m[i] {
      var j := i / 2;
      assert Level(H, l)[j] == Level(H, m)[j];
      var x := if 2 * j + 1 < |l| then l[2 * j + 1] else l[2 * j];
      var y := if 2 * j + 1 < |l| then m[2 * j + 1] else m[2 * j];
      assert H(l[2 * j], x) == H(m[2 * j], y);
      assert l[2 * j] == m[2 * j] && x == y;
      if i == 2 * j { } else { assert i == 2 * j + 1;  }
    }
  }

  /** Leaf lists of one length with one root are one list. */
  lemma {:induction false} EqualLengthRoots(H: PairHash, l: seq<Hash>, m: seq<Hash>)
    requires Injective(H) && |l| == |m| && Root(H, l) == Root(H, m)
    ensures l == m
    decreases |l|
  {
    if |l| > 1 {
      EqualLengthRoots(H, Level(H, l), Level(H, m));
      LevelInjective(H, l, m);
    }
  }

  /** The length matters: an odd list and the list with its last leaf repeated share a root. */
  lemma RepeatedLastLeaf(H: PairHash, l: seq<Hash>)
    requires |l| % 2 == 1 && |l| >= 3
    ensures Root(H, l + [l[|l| - 1]]) == Root(H, l)
  {
    assert Level(H, l + [l[|l| - 1]]) == Level(H, l);
  }

  // ---- any lengths, no repeated leaf -----------------------------------------------------

  // A node `h` hashes above the leaves; a leaf is no hash of a pair.
  ghost predicate AtHeight(H: PairHash, x: Hash, h: nat)
    decreases h
  {
    if h == 0 then forall a, b :: H(a, b) != x
    else exists a, b :: x == H(a, b) && AtHeight(H, a, h - 1) && AtHeight(H, b, h - 1)
  }

  ghost predicate AllAt(H: PairHash, l: seq<Hash>, h: nat) {
    forall i | 0 <= i < |l| :: AtHeight(H, l[i], h)
  }

  lemma {:induction false} HeightUnique(H: PairHash, x: Hash, h: nat, k: nat)
    requires Injective(H) && AtHeight(H, x, h) && AtHeight(H, x, k)
    ensures h == k
    decreases h
  {
    if h > 0 && k > 0 {
      var a, b :| x == H(a, b) && AtHeight(H, a, h - 1) && AtHeight(H, b, h - 1);
      HeightUnique(H, a, h - 1, k - 1);
    }
  }

  lemma LevelHeight(H: PairHash, l: seq<Hash>, h: nat)
    requires AllAt(H, l, h)
    ensures AllAt(H, Level(H, l), h + 1)
  {
  }

  lemma {:induction false} TopHeight(H: PairHash, l: seq<Hash>, h: nat) returns (k: nat)
    requires l != [] && AllAt(H, l, h)
    ensures AtHeight(H, Top(H, l), k) && h <= k && (|l| > 1 ==> h < k)
    decreases |l|
  {
    if |l| == 1 {
      k := h;
    } else {
      LevelHeight(H, l, h);
      k := TopHeight(H, Level(H, l), h + 1);
    }
  }

  lemma LevelDistinct(H: PairHash, l: seq<Hash>)
    requires Injective(H) && Distinct(l)
    ensures Distinct(Level(H, l))
  {
    var up := Level(H, l);
    forall i, j | 0 <= i < j < |up| ensures up[i] != up[j] {
      assert l[2 * i] != l[2 * j];
    }
  }

  lemma LevelDistinctInjective(H: PairHash, l: seq<Hash>, m: seq<Hash>)
    requires Injective(H) && Distinct(l) && Distinct(m) && Level(H, l) == Level(H, m)
    ensures l == m
  {
    if l != [] {
      var last := |Level(H, l)| - 1;
      assert Level(H, l)[last] == Level(H, m)[last];
      assert |l| == |m|;
    }
    LevelInjective(H, l, m);
  }

  lemma SingleLeafTop(H: PairHash, l: seq<Hash>, m: seq<Hash>, h: nat)
    requires Injective(H) && |l| == 1 && m != []
    requires AllAt(H, l, h) && AllAt(H, m, h) && Top(H, l) == Top(H, m)
    ensures l == m
  {
    var k := TopHeight(H, m, h);
    HeightUnique(H, l[0], h, k);
  }

  lemma {:induction false} DistinctTops(H: PairHash, l: seq<Hash>, m: seq<Hash>, h: nat)
    requires Injective(H) && Distinct(l) && Distinct(m) && l != [] && m != []
    requires AllAt(H, l, h) && AllAt(H, m, h) && Top(H, l) == Top(H, m)
    ensures l == m
    decreases |l|
  {
    if |l| == 1 {
      SingleLeafTop(H, l, m, h);
    } else if |m| == 1 {
      SingleLeafTop(H, m, l, h);
    } else {
      assert Level(H, l) == Level(H, m) by {
        LevelHeight(H, l, h);
        LevelHeight(H, m, h);
        LevelDistinct(H, l);
        LevelDistinct(H, m);
        DistinctTops(H, Level(H, l), Level(H, m), h + 1);
      }
      LevelDistinctInjective(H, l, m);
    }
  }

  // ---- any lengths, any leaves -----------------------------------------------------------

  /** The leaves of the tree of height h as it is hashed: a half with nothing beside it comes
      twice. */
  function Padded(leaves: seq<Hash>, h: nat): (r: seq<Hash>)
    requires 0 < |leaves| <= Pow2(h)
    ensures |r| == Pow2(h)
  {
    if h == 0 then leaves
    else
      var half := Pow2(h - 1);
      if |leaves| <= half then Padded(leaves, h - 1) + Padded(leaves, h - 1)
      else Padded(leaves[..half], h - 1) + Padded(leaves[half..], h - 1)
  }

  lemma FullStep(H: PairHash, a: seq<Hash>, b: seq<Hash>, h: nat)
    requires 0 < h && |a| == |b| == Pow2(h - 1)
    ensures |a + b| == Pow2(h) && Tree(H, a + b, h) == H(Tree(H, a, h - 1), Tree(H, b, h - 1))
  {
    hide Tree;
    TreeStep(H, a + b, h);
    assert (a + b)[..Pow2(h - 1)] == a && (a + b)[Pow2(h - 1)..] == b;
  }

  lemma {:induction false} TreeOfPadded(H: PairHash, l: seq<Hash>, h: nat)
    requires 0 < |l| <= Pow2(h)
    ensures Tree(H, Padded(l, h), h) == Tree(H, l, h)
    decreases h
  {
    hide Tree;
    if h > 0 {
      var half := Pow2(h - 1);
      TreeStep(H, l, h);
      if |l| <= half {
        TreeOfPadded(H, l, h - 1);
        FullStep(H, Padded(l, h - 1), Padded(l, h - 1), h);
      } else {
        TreeOfPadded(H, l[..half], h - 1);
        TreeOfPadded(H, l[half..], h - 1);
        FullStep(H, Padded(l[..half], h - 1), Padded(l[half..], h - 1), h);
      }
    }
  }

  lemma {:induction false} TreeAtHeight(H: PairHash, l: seq<Hash>, h: nat)
    requires 0 < |l| <= Pow2(h) && AllAt(H, l, 0)
    ensures AtHeight(H, Tree(H, l, h), h)
    decreases h
  {
    if h > 0 {
      var half := Pow2(h - 1);
      if |l| <= half {
        TreeAtHeight(H, l, h - 1);
      } else {
        TreeAtHeight(H, l[..half], h - 1);
        TreeAtHeight(H, l[half..], h - 1);
      }
    }
  }

  lemma {:induction false} HeightOfPow2(h: nat)
    ensures Height(Pow2(h)) == h
  {
    if h > 0 {
      HeightOfPow2(h - 1);
      assert (Pow2(h) + 1) / 2 == Pow2(h - 1);
    }
  }

  /** Exactly when two lists of leaves share a root: their trees have one height, and filled up to
      it they are one list. */
  lemma RootsExactly(H: PairHash, l: seq<Hash>, m: seq<Hash>)
    requires Injective(H) && l != [] && m != [] && AllAt(H, l, 0) && AllAt(H, m, 0)
    ensures Root(H, l) == Root(H, m) <==>
            Height(|l|) == Height(|m|) && Padded(l, Height(|l|)) == Padded(m, Height(|m|))
  {
    hide Top, Tree, Padded, Height, AllAt, AtHeight, Injective;
    var h, k := Height(|l|), Height(|m|);
    TopIsTree(H, l);
    TopIsTree(H, m);
    TreeOfPadded(H, l, h);
    TreeOfPadded(H, m, k);
    if Root(H, l) == Root(H, m) {
      TreeAtHeight(H, l, h);
      TreeAtHeight(H, m, k);
      HeightUnique(H, Top(H, l), h, k);
      HeightOfPow2(h);
      TopIsTree(H, Padded(l, h));
      TopIsTree(H, Padded(m, k));
      EqualLengthRoots(H, Padded(l, h), Padded(m, k));
    }
  }

  /** Transaction lists without repetitions are determined by their Merkle root, whatever
      their lengths. */
  lemma DistinctTxRoots(P: Params, s: seq<Tx>, t: seq<Tx>)
    requires Ideal(P) && Distinct(s) && Distinct(t) && MerkleRoot(P, s) == MerkleRoot(P, t)
    ensures s == t
  {
    if s != [] {
      DistinctTops(P.pairHash, TxIds(P, s), TxIds(P, t), 0);
      assert |s| == |TxIds(P, s)| == |TxIds(P, t)| == |t|;
      forall i | 0 <= i < |s| ensures s[i] == t[i] {
        assert TxIds(P, s)[i] == TxIds(P, t)[i];
      }
    }
  }
}
