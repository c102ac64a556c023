/**
 * The backend's off-chain mirrors of the contract's three trees
 * (`OwnerStorage`, `IpfsHashStorage`, `PriceStorage`). The three classes of
 * the program differ only in their leaf codec, so they share one class here;
 * each keeps an o1js tree and the index-to-leaf record it was built from.
 */
module Storage {
  import opened Primitives
  import opened Merkle

  /** One `{ index, leaf }` entry of a storage's initial list. */
  datatype LeafEntry = LeafEntry(index: nat, leaf: Field)

  /** The leaf a record shows at index i: `Field(0)` when i was never set. */
  function LeafOr(leafs: map<nat, Field>, i: nat): Field
  {
    if i in leafs then leafs[i] else EMPTY_LEAF
  }

  /** The complete tree of depth d whose leaf i is the record's leaf at base + i. */
  function TreeFrom(leafs: map<nat, Field>, d: nat, base: nat): (t: Tree)
    ensures Complete(t, d)
    decreases d
  {
    if d == 0 then Leaf(LeafOr(leafs, base))
    else Node(TreeFrom(leafs, d - 1, base), TreeFrom(leafs, d - 1, base + Pow2(d - 1)))
  }

  /** `PriceStorage.calculateLeaf`: the price itself as a field element, so
      that exactly the price 0 gives the empty leaf. */
  function PriceLeaf(price: nat): (leaf: Field)
    ensures leaf == EMPTY_LEAF <==> price == 0
  {
    price
  }

  /** `updateLeaf` over a list, in list order. */
  function Applied(leafs: map<nat, Field>, entries: seq<LeafEntry>): map<nat, Field>
    decreases |entries|
  {
    if entries == [] then leafs
    else Applied(leafs[entries[0].index := entries[0].leaf], entries[1..])
  }

  lemma {:induction false} TreeFromLeafAt(leafs: map<nat, Field>, d: nat, base: nat, i: nat)
    requires i < Pow2(d)
    ensures LeafAt(TreeFrom(leafs, d, base), d, i) == LeafOr(leafs, base + i)
    decreases d
  {
    if d > 0 {
      var half := Pow2(d - 1);
      if i < half {
        TreeFromLeafAt(leafs, d - 1, base, i);
      } else {
        TreeFromLeafAt(leafs, d - 1, base + half, i - half);
      }
    }
  }

  /** The empty record gives the empty tree. */
  lemma {:induction false} TreeFromEmpty(d: nat, base: nat)
    ensures TreeFrom(map[], d, base) == EmptyTree(d)
    decreases d
  {
    if d > 0 {
      TreeFromEmpty(d - 1, base);
      TreeFromEmpty(d - 1, base + Pow2(d - 1));
    }
  }

  /** Setting an index outside the tree's range leaves the tree as it was. */
  lemma {:induction false} TreeFromOutside(leafs: map<nat, Field>, d: nat, base: nat, k: nat, v: Field)
    requires k < base || base + Pow2(d) <= k
    ensures TreeFrom(leafs[k := v], d, base) == TreeFrom(leafs, d, base)
    decreases d
  {
    if d > 0 {
      TreeFromOutside(leafs, d - 1, base, k, v);
      TreeFromOutside(leafs, d - 1, base + Pow2(d - 1), k, v);
    }
  }

  /** Setting a recorded leaf is `setLeaf` on the tree it builds. */
  lemma {:induction false} TreeFromSet(leafs: map<nat, Field>, d: nat, base: nat, i: nat, v: Field)
    requires i < Pow2(d)
    ensures TreeFrom(leafs[base + i := v], d, base) == SetLeaf(TreeFrom(leafs, d, base), d, i, v)
    decreases d
  {
    if d > 0 {
      var half := Pow2(d - 1);
      if i < half {
        TreeFromSet(leafs, d - 1, base, i, v);
        TreeFromOutside(leafs, d - 1, base + half, base + i, v);
      } else {
        TreeFromOutside(leafs, d - 1, base, base + i, v);
        TreeFromSet(leafs, d - 1, base + half, i - half, v);
      }
    }
  }

  /** Setting leaf i of a record is `setLeaf(i, v)` on its tree. */
  lemma RecordSet(leafs: map<nat, Field>, d: nat, i: nat, v: Field)
    requires i < Pow2(d)
    ensures TreeFrom(leafs[i := v], d, 0) == SetLeaf(TreeFrom(leafs, d, 0), d, i, v)
  {
    TreeFromSet(leafs, d, 0, i, v);
    assert leafs[0 + i := v] == leafs[i := v];
  }

  /** The witness of leaf i of a record's tree names i and recomputes the root
      from the recorded leaf. */
  lemma RecordRoundTrip(hash: (Field, Field) -> Field, leafs: map<nat, Field>, d: nat, i: nat)
    requires i < Pow2(d)
    ensures CalculateIndex(WitnessOf(hash, TreeFrom(leafs, d, 0), d, i)) == i
    ensures CalculateRoot(hash, WitnessOf(hash, TreeFrom(leafs, d, 0), d, i), LeafOr(leafs, i))
         == RootOf(hash, TreeFrom(leafs, d, 0))
  {
    WitnessRoundTrip(hash, TreeFrom(leafs, d, 0), d, i);
    TreeFromLeafAt(leafs, d, 0, i);
  }

  /** The witness of leaf i of a record's tree: any value hashed up it gives the
      root of the record with leaf i set to that value. */
  lemma RecordWitness(hash: (Field, Field) -> Field, leafs: map<nat, Field>, d: nat, i: nat)
    requires i < Pow2(d)
    ensures forall v :: CalculateRoot(hash, WitnessOf(hash, TreeFrom(leafs, d, 0), d, i), v)
                     == RootOf(hash, TreeFrom(leafs[i := v], d, 0))
  {
    forall v
      ensures CalculateRoot(hash, WitnessOf(hash, TreeFrom(leafs, d, 0), d, i), v)
           == RootOf(hash, TreeFrom(leafs[i := v], d, 0))
    {
      WitnessUpdate(hash, TreeFrom(leafs, d, 0), d, i, v);
      TreeFromSet(leafs, d, 0, i, v);
    }
  }

  /** A later entry for the same index wins over every earlier one. */
  lemma {:induction false} AppliedLastWins(leafs: map<nat, Field>, entries: seq<LeafEntry>, j: nat)
    requires j < |entries|
    requires forall k | j < k < |entries| :: entries[k].index != entries[j].index
    ensures entries[j].index in Applied(leafs, entries)
    ensures Applied(leafs, entries)[entries[j].index] == entries[j].leaf
    decreases |entries|
  {
    var e := entries[0];
    if j == 0 {
      AppliedUntouched(leafs[e.index := e.leaf], entries[1..], e.index);
    } else {
      AppliedLastWins(leafs[e.index := e.leaf], entries[1..], j - 1);
    }
  }

  /** An index no entry names keeps its record (or its absence). */
  lemma {:induction false} AppliedUntouched(leafs: map<nat, Field>, entries: seq<LeafEntry>, i: nat)
    requires forall k | 0 <= k < |entries| :: entries[k].index != i
    ensures i in Applied(leafs, entries) <==> i in leafs
    ensures i in leafs ==> Applied(leafs, entries)[i] == leafs[i]
    decreases |entries|
  {
    if entries != [] {
      var e := entries[0];
      assert e.index != i;
      AppliedUntouched(leafs[e.index := e.leaf], entries[1..], i);
    }
  }

  /** A new storage's root is `DefaultRootForNftTree`. */
  lemma NewStorageRoot(hash: (Field, Field) -> Field)
    ensures RootOf(hash, TreeFrom(map[], DEPTH, 0)) == DefaultRoot(hash)
  {
    TreeFromEmpty(DEPTH, 0);
  }

  /**
   * One leaf store. The o1js tree `_tree` always holds exactly the leaves of
   * the record `_leafs` (both are written together by `updateLeaf`), so the
   * tree is represented by the record: `Tree()` is the tree it determines.
   */
  class LeafStorage {
    /** The tree hash (Poseidon). */
    const hash: (Field, Field) -> Field
    /** `_leafs`, keyed by the index. */
    var leafs: map<nat, Field>

    /** Every recorded index lies inside the tree. */
    ghost predicate Valid()
      reads this
    {
      forall i | i in leafs :: i < LEAF_COUNT
    }

    /** `_tree`. */
    function Tree(): (t: Tree)
      reads this
      ensures Complete(t, DEPTH)
    {
      TreeFrom(leafs, DEPTH, 0)
    }

    /** `new XStorage(leafs?)`: an empty tree, then `updateLeaf` per entry in order. */
    constructor (hash: (Field, Field) -> Field, entries: seq<LeafEntry>)
      requires forall k | 0 <= k < |entries| :: entries[k].index < LEAF_COUNT
      ensures Valid() && this.hash == hash
      ensures leafs == Applied(map[], entries)
    {
      this.hash := hash;
      leafs := map[];
      new;
      UpdateLeafs(entries);
    }

    /** The constructor's loop: `updateLeaf` for each entry in list order. */
    method UpdateLeafs(entries: seq<LeafEntry>)
      requires Valid()
      requires forall k | 0 <= k < |entries| :: entries[k].index < LEAF_COUNT
      modifies this
      ensures Valid()
      ensures leafs == Applied(old(leafs), entries)
    {
      var i := 0;
      ghost var target := Applied(leafs, entries);
      assert entries[i..] == entries;
      while i < |entries|
        invariant 0 <= i <= |entries| && Valid()
        invariant Applied(leafs, entries[i..]) == target
      {
        assert entries[i..][1..] == entries[i + 1..];
        var _ := UpdateLeaf(entries[i].index, entries[i].leaf);
        i := i + 1;
      }
      assert entries[i..] == [];
    }

    /** `root`. */
    function Root(): Field
      reads this
    {
      RootOf(hash, Tree())
    }

    /** `getWitness(index)`: names `index` and recomputes the current root from
        the current leaf there (`Field(0)` if never set); any value hashed up it
        gives the root of the record with that leaf set to the value. */
    function GetWitness(index: nat): (w: NftWitness)
      reads this
      requires index < LEAF_COUNT
      ensures CalculateIndex(w) == index
      ensures CalculateRoot(hash, w, LeafOr(leafs, index)) == Root()
      ensures forall v :: CalculateRoot(hash, w, v) == RootOf(hash, TreeFrom(leafs[index := v], DEPTH, 0))
    {
      RecordRoundTrip(hash, leafs, DEPTH, index);
      RecordWitness(hash, leafs, DEPTH, index);
      WitnessOf(hash, Tree(), DEPTH, index)
    }

    /** `updateLeaf(index, leaf)`: o1js refuses an index outside the tree;
        otherwise the tree leaf and the record at `index` become `leaf`, and
        the new root is the old witness of `index` hashed up from `leaf`. */
    method UpdateLeaf(index: nat, leaf: Field) returns (ok: bool)
      requires Valid()
      modifies this
      ensures Valid()
      ensures ok <==> index < LEAF_COUNT
      ensures ok ==> leafs == old(leafs)[index := leaf]
      ensures !ok ==> leafs == old(leafs)
    {
      if index >= LEAF_COUNT {
        return false;
      }
      RecordSet(leafs, DEPTH, index, leaf);
      leafs := leafs[index := leaf];
      ok := true;
    }
  }
}
