/**
 * The fixed-height Merkle tree of o1js (`MerkleTree`, `MerkleWitness`) over an
 * uninterpreted 2-to-1 hash. A complete tree of depth d holds 2^d leaves, the
 * first half in its left subtree. A witness is the leaf-to-root list of
 * (isLeft, sibling) steps; `CalculateRoot` and `CalculateIndex` are the
 * witness's own methods.
 */
module Merkle {
  import opened Primitives

  datatype Tree = Leaf(value: Field) | Node(left: Tree, right: Tree)

  datatype PathStep = PathStep(isLeft: bool, sibling: Field)

  /** Leaf-to-root authentication path: element 0 is the leaf level. */
  type Path = seq<PathStep>

  /** The value of a leaf that was never set (`Field(0)`). */
  const EMPTY_LEAF: Field := 0

  /** Number of hashing levels of every NFT tree. */
  const DEPTH: nat := NFT_TREE_HEIGHT

  /** Leaf capacity of every NFT tree. */
  const LEAF_COUNT: nat := Pow2(DEPTH)

  /** `NftWitness`: a witness of the trees' fixed height. */
  type NftWitness = w: Path | |w| == DEPTH
    witness [PathStep(true, 0), PathStep(true, 0), PathStep(true, 0), PathStep(true, 0), PathStep(true, 0)]

  /** Every leaf of t sits at depth d. */
  ghost predicate Complete(t: Tree, d: nat)
  {
    match t
    case Leaf(_) => d == 0
    case Node(l, r) => d > 0 && Complete(l, d - 1) && Complete(r, d - 1)
  }

  /** The tree of depth d whose leaves are all empty (`new MerkleTree(...)`). */
  function EmptyTree(d: nat): (t: Tree)
    ensures Complete(t, d)
    decreases d
  {
    if d == 0 then Leaf(EMPTY_LEAF) else Node(EmptyTree(d - 1), EmptyTree(d - 1))
  }

  /** `MerkleTree.getRoot`. */
  function RootOf(hash: (Field, Field) -> Field, t: Tree): Field
  {
    match t
    case Leaf(v) => v
    case Node(l, r) => hash(RootOf(hash, l), RootOf(hash, r))
  }

  /** `MerkleTree.getNode(0, i)`: the value of leaf i. */
  function LeafAt(t: Tree, d: nat, i: nat): Field
    requires Complete(t, d) && i < Pow2(d)
    decreases t
  {
    if d == 0 then t.value
    else if i < Pow2(d - 1) then LeafAt(t.left, d - 1, i)
    else LeafAt(t.right, d - 1, i - Pow2(d - 1))
  }

  /** `MerkleTree.setLeaf`: replace leaf i, rehashing the path above it. */
  function SetLeaf(t: Tree, d: nat, i: nat, v: Field): (r: Tree)
    requires Complete(t, d) && i < Pow2(d)
    ensures Complete(r, d)
    decreases t
  {
    if d == 0 then Leaf(v)
    else if i < Pow2(d - 1) then Node(SetLeaf(t.left, d - 1, i, v), t.right)
    else Node(t.left, SetLeaf(t.right, d - 1, i - Pow2(d - 1), v))
  }

  /** `MerkleTree.getWitness`: siblings along the path from leaf i to the root. */
  function WitnessOf(hash: (Field, Field) -> Field, t: Tree, d: nat, i: nat): (w: Path)
    requires Complete(t, d) && i < Pow2(d)
    ensures |w| == d
    decreases t
  {
    if d == 0 then []
    else if i < Pow2(d - 1) then WitnessOf(hash, t.left, d - 1, i) + [PathStep(true, RootOf(hash, t.right))]
    else WitnessOf(hash, t.right, d - 1, i - Pow2(d - 1)) + [PathStep(false, RootOf(hash, t.left))]
  }

  /** `MerkleWitness.calculateRoot`: hash a claimed leaf up the path. */
  function CalculateRoot(hash: (Field, Field) -> Field, w: Path, leaf: Field): Field
    decreases |w|
  {
    if w == [] then leaf
    else
      var step := w[|w| - 1];
      var below := CalculateRoot(hash, w[..|w| - 1], leaf);
      if step.isLeft then hash(below, step.sibling) else hash(step.sibling, below)
  }

  /** `MerkleWitness.calculateIndex`: a right step at level k contributes 2^k. */
  function CalculateIndex(w: Path): (i: nat)
    ensures i < Pow2(|w|)
    decreases |w|
  {
    if w == [] then 0
    else CalculateIndex(w[..|w| - 1]) + (if w[|w| - 1].isLeft then 0 else Pow2(|w| - 1))
  }

  /** `DefaultRootForNftTree`: the root of the NFT tree with no leaf set. */
  function DefaultRoot(hash: (Field, Field) -> Field): Field
  {
    RootOf(hash, EmptyTree(DEPTH))
  }

  /** A never-set leaf reads as `EMPTY_LEAF`. */
  lemma {:induction false} EmptyLeafAt(d: nat, i: nat)
    requires i < Pow2(d)
    ensures LeafAt(EmptyTree(d), d, i) == EMPTY_LEAF
    decreases d
  {
    if d > 0 {
      if i < Pow2(d - 1) {
        EmptyLeafAt(d - 1, i);
      } else {
        EmptyLeafAt(d - 1, i - Pow2(d - 1));
      }
    }
  }

  /** `setLeaf(i, v)` makes leaf i read v and leaves every other leaf as it was. */
  lemma {:induction false} LeafAtSetLeaf(t: Tree, d: nat, i: nat, v: Field, j: nat)
    requires Complete(t, d) && i < Pow2(d) && j < Pow2(d)
    ensures LeafAt(SetLeaf(t, d, i, v), d, j) == if j == i then v else LeafAt(t, d, j)
    decreases d
  {
    if d > 0 {
      var half := Pow2(d - 1);
      if i < half && j < half {
        LeafAtSetLeaf(t.left, d - 1, i, v, j);
      } else if half <= i && half <= j {
        LeafAtSetLeaf(t.right, d - 1, i - half, v, j - half);
      }
    }
  }

  /** A complete tree is determined by its leaves. */
  lemma {:induction false} TreeExtensionality(t: Tree, u: Tree, d: nat)
    requires Complete(t, d) && Complete(u, d)
    requires forall i: nat :: i < Pow2(d) ==> LeafAt(t, d, i) == LeafAt(u, d, i)
    ensures t == u
    decreases d
  {
    if d > 0 {
      var e, half := d - 1, Pow2(d - 1);
      forall i: nat | i < half
        ensures LeafAt(t.left, e, i) == LeafAt(u.left, e, i)
      {
        assert LeafAt(t, d, i) == LeafAt(u, d, i);
      }
      forall i: nat | i < half
        ensures LeafAt(t.right, e, i) == LeafAt(u.right, e, i)
      {
        assert LeafAt(t, d, i + half) == LeafAt(u, d, i + half);
      }
      TreeExtensionality(t.left, u.left, e);
      TreeExtensionality(t.right, u.right, e);
      assert t == Node(t.left, t.right) && u == Node(u.left, u.right);
    } else {
      assert LeafAt(t, d, 0) == LeafAt(u, d, 0);
    }
  }

  /** One more step on top of a path: how root and index grow. */
  lemma PathSnoc(hash: (Field, Field) -> Field, p: Path, step: PathStep, v: Field)
    ensures CalculateRoot(hash, p + [step], v)
         == if step.isLeft then hash(CalculateRoot(hash, p, v), step.sibling)
            else hash(step.sibling, CalculateRoot(hash, p, v))
    ensures CalculateIndex(p + [step]) == CalculateIndex(p) + if step.isLeft then 0 else Pow2(|p|)
  {
    assert (p + [step])[..|p|] == p;
  }

  /** The witness of leaf i names index i. */
  lemma {:induction false} WitnessIndex(hash: (Field, Field) -> Field, t: Tree, d: nat, i: nat)
    requires Complete(t, d) && i < Pow2(d)
    ensures CalculateIndex(WitnessOf(hash, t, d, i)) == i
    decreases d
  {
    if d > 0 {
      var half := Pow2(d - 1);
      if i < half {
        WitnessIndex(hash, t.left, d - 1, i);
        IndexLeftStep(hash, t, d, i);
      } else {
        WitnessIndex(hash, t.right, d - 1, i - half);
        IndexRightStep(hash, t, d, i);
      }
    }
  }

  lemma IndexLeftStep(hash: (Field, Field) -> Field, t: Tree, d: nat, i: nat)
    requires d > 0 && Complete(t, d) && i < Pow2(d - 1)
    requires CalculateIndex(WitnessOf(hash, t.left, d - 1, i)) == i
    ensures CalculateIndex(WitnessOf(hash, t, d, i)) == i
  {
    var w, step := WitnessOf(hash, t.left, d - 1, i), PathStep(true, RootOf(hash, t.right));
    assert WitnessOf(hash, t, d, i) == w + [step];
    PathSnoc(hash, w, step, 0);
  }

  lemma IndexRightStep(hash: (Field, Field) -> Field, t: Tree, d: nat, i: nat)
    requires d > 0 && Complete(t, d) && Pow2(d - 1) <= i < Pow2(d)
    requires CalculateIndex(WitnessOf(hash, t.right, d - 1, i - Pow2(d - 1))) == i - Pow2(d - 1)
    ensures CalculateIndex(WitnessOf(hash, t, d, i)) == i
  {
    var w, step := WitnessOf(hash, t.right, d - 1, i - Pow2(d - 1)), PathStep(false, RootOf(hash, t.left));
    assert WitnessOf(hash, t, d, i) == w + [step];
    PathSnoc(hash, w, step, 0);
  }

  /** Writing back the value a leaf already holds changes nothing. */
  lemma {:induction false} SetLeafSame(t: Tree, d: nat, i: nat)
    requires Complete(t, d) && i < Pow2(d)
    ensures SetLeaf(t, d, i, LeafAt(t, d, i)) == t
    decreases d
  {
    if d > 0 {
      if i < Pow2(d - 1) {
        SetLeafSame(t.left, d - 1, i);
      } else {
        SetLeafSame(t.right, d - 1, i - Pow2(d - 1));
      }
    }
  }

  /** The witness of leaf i names index i and recomputes the root from leaf i. */
  lemma WitnessRoundTrip(hash: (Field, Field) -> Field, t: Tree, d: nat, i: nat)
    requires Complete(t, d) && i < Pow2(d)
    ensures CalculateIndex(WitnessOf(hash, t, d, i)) == i
    ensures CalculateRoot(hash, WitnessOf(hash, t, d, i), LeafAt(t, d, i)) == RootOf(hash, t)
  {
    WitnessIndex(hash, t, d, i);
    WitnessUpdate(hash, t, d, i, LeafAt(t, d, i));
    SetLeafSame(t, d, i);
  }

  /** Hashing a new value v up the witness of leaf i gives the root of the tree
      whose leaf i is v: the O(height) root update of `setLeaf`. */
  lemma {:induction false} WitnessUpdate(hash: (Field, Field) -> Field, t: Tree, d: nat, i: nat, v: Field)
    requires Complete(t, d) && i < Pow2(d)
    ensures CalculateRoot(hash, WitnessOf(hash, t, d, i), v) == RootOf(hash, SetLeaf(t, d, i, v))
    decreases d
  {
    if d > 0 {
      var half := Pow2(d - 1);
      if i < half {
        WitnessUpdate(hash, t.left, d - 1, i, v);
        PathSnoc(hash, WitnessOf(hash, t.left, d - 1, i), PathStep(true, RootOf(hash, t.right)), v);
      } else {
        WitnessUpdate(hash, t.right, d - 1, i - half, v);
        PathSnoc(hash, WitnessOf(hash, t.right, d - 1, i - half), PathStep(false, RootOf(hash, t.left)), v);
      }
    }
  }

  /** The witness of leaf i recomputes, from any value v, the root of the
      tree whose leaf i is v. */
  lemma WitnessUpdates(hash: (Field, Field) -> Field, t: Tree, d: nat, i: nat)
    requires Complete(t, d) && i < Pow2(d)
    ensures forall v :: CalculateRoot(hash, WitnessOf(hash, t, d, i), v) == RootOf(hash, SetLeaf(t, d, i, v))
  {
    forall v
      ensures CalculateRoot(hash, WitnessOf(hash, t, d, i), v) == RootOf(hash, SetLeaf(t, d, i, v))
    {
      WitnessUpdate(hash, t, d, i, v);
    }
  }

  lemma Unhash(hash: (Field, Field) -> Field, unhash: Field -> (Field, Field), a: Field, b: Field, c: Field, e: Field)
    requires CollisionFree(hash, unhash) && hash(a, b) == hash(c, e)
    ensures a == c && b == e
  {
    assert unhash(hash(a, b)) == (a, b) && unhash(hash(c, e)) == (c, e);
  }

  /** With a collision-free hash, a path that recomputes the root from v is the
      tree's own witness for the index it names, and that leaf holds v. */
  lemma {:induction false} WitnessBinding(hash: (Field, Field) -> Field, unhash: Field -> (Field, Field), t: Tree, d: nat, w: Path, v: Field)
    requires CollisionFree(hash, unhash)
    requires Complete(t, d) && |w| == d
    requires CalculateRoot(hash, w, v) == RootOf(hash, t)
    ensures CalculateIndex(w) < Pow2(d)
    ensures LeafAt(t, d, CalculateIndex(w)) == v
    ensures w == WitnessOf(hash, t, d, CalculateIndex(w))
    decreases d
  {
    if d > 0 {
      var p, step := w[..d - 1], w[d - 1];
      assert w == p + [step];
      PathSnoc(hash, p, step, v);
      var below := CalculateRoot(hash, p, v);
      if step.isLeft {
        Unhash(hash, unhash, below, step.sibling, RootOf(hash, t.left), RootOf(hash, t.right));
        WitnessBinding(hash, unhash, t.left, d - 1, p, v);
        assert step == PathStep(true, RootOf(hash, t.right));
      } else {
        Unhash(hash, unhash, step.sibling, below, RootOf(hash, t.left), RootOf(hash, t.right));
        WitnessBinding(hash, unhash, t.right, d - 1, p, v);
        assert step == PathStep(false, RootOf(hash, t.left));
      }
    }
  }

  /** For the NFT trees' height: a witness names index i and verifies leaf v
      against the root exactly when leaf i is v and the witness is the tree's
      own witness for i. */
  lemma WitnessVerifies(hash: (Field, Field) -> Field, unhash: Field -> (Field, Field), t: Tree, w: NftWitness, i: nat, v: Field)
    requires CollisionFree(hash, unhash) && Complete(t, DEPTH)
    ensures CalculateIndex(w) == i && CalculateRoot(hash, w, v) == RootOf(hash, t)
        <==> i < LEAF_COUNT && LeafAt(t, DEPTH, i) == v && w == WitnessOf(hash, t, DEPTH, i)
  {
    if CalculateRoot(hash, w, v) == RootOf(hash, t) {
      WitnessBinding(hash, unhash, t, DEPTH, w, v);
    }
    if i < LEAF_COUNT && LeafAt(t, DEPTH, i) == v && w == WitnessOf(hash, t, DEPTH, i) {
      WitnessRoundTrip(hash, t, DEPTH, i);
    }
  }

  /** For the NFT trees' height: a witness that verifies leaf v also computes
      the root of the tree in which that leaf is replaced by v'. */
  lemma VerifiedUpdate(hash: (Field, Field) -> Field, unhash: Field -> (Field, Field), t: Tree, w: NftWitness, v: Field, v': Field)
    requires CollisionFree(hash, unhash) && Complete(t, DEPTH)
    requires CalculateRoot(hash, w, v) == RootOf(hash, t)
    ensures CalculateIndex(w) < LEAF_COUNT && LeafAt(t, DEPTH, CalculateIndex(w)) == v
    ensures CalculateRoot(hash, w, v') == RootOf(hash, SetLeaf(t, DEPTH, CalculateIndex(w), v'))
  {
    WitnessBinding(hash, unhash, t, DEPTH, w, v);
    WitnessUpdate(hash, t, DEPTH, CalculateIndex(w), v');
  }
}
