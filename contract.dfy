/**
 * The on-chain `NFT` zkApp: four state fields (`nextNftId` and the roots of
 * the owner, content-hash and price trees), an action log fed by
 * `reducer.dispatch` and an event log fed by `emitEvent`. A `@method` whose
 * assertion fails is rejected and changes nothing; here it returns `false`.
 *
 * The trees themselves are not on chain; the ghost fields `owners`,
 * `ipfsHashes` and `prices` are the trees whose roots the contract stores.
 */
module Contract {
  import opened Primitives
  import opened Merkle
  import Storage

  /** The `update-market-item` event payload (struct `MarketItem`). */
  datatype MarketItem = MarketItem(id: Field, price: UInt64)

  class NftContract {
    const foreign: Foreign
    /** The inverse of the tree hash that idealised collision resistance provides. */
    ghost const unhash: Field -> (Field, Field)

    var nextNftId: Field
    var ownerRoot: Field
    var ipfsHashRoot: Field
    var priceRoot: Field

    /** Every `Metadata` dispatched to the reducer, in order. */
    var actions: seq<Metadata>
    /** Every `update-market-item` event emitted, in order. */
    var events: seq<MarketItem>

    ghost var owners: Tree
    ghost var ipfsHashes: Tree
    ghost var prices: Tree

    /**
     * The stored roots are those of the ghost trees, and `nextNftId` never
     * passes the number of leaves.
     */
    ghost predicate Valid()
      reads this
    {
      && CollisionFree(foreign.hash, unhash)
      && Complete(owners, DEPTH) && Complete(ipfsHashes, DEPTH) && Complete(prices, DEPTH)
      && ownerRoot == RootOf(foreign.hash, owners)
      && ipfsHashRoot == RootOf(foreign.hash, ipfsHashes)
      && priceRoot == RootOf(foreign.hash, prices)
      && nextNftId <= LEAF_COUNT
    }

    /** The owner leaf at `id` is `owner`'s. */
    ghost predicate Owns(id: Field, owner: PublicKey)
      reads this
      requires Valid()
    {
      id < LEAF_COUNT && LeafAt(owners, DEPTH, id) == foreign.ownerLeaf(owner)
    }

    /** The price leaf at `id` is empty: `id` is not offered for sale. */
    ghost predicate Unlisted(id: Field)
      reads this
      requires Valid()
    {
      id < LEAF_COUNT && LeafAt(prices, DEPTH, id) == EMPTY_LEAF
    }

    ghost function OwnerWitness(id: Field): NftWitness
      reads this
      requires Valid() && id < LEAF_COUNT
    {
      WitnessOf(foreign.hash, owners, DEPTH, id)
    }

    ghost function IpfsHashWitness(id: Field): NftWitness
      reads this
      requires Valid() && id < LEAF_COUNT
    {
      WitnessOf(foreign.hash, ipfsHashes, DEPTH, id)
    }

    ghost function PriceWitness(id: Field): NftWitness
      reads this
      requires Valid() && id < LEAF_COUNT
    {
      WitnessOf(foreign.hash, prices, DEPTH, id)
    }

    /** `init`: all three roots are the empty tree's and no id is used yet. */
    constructor (foreign: Foreign, ghost unhash: Field -> (Field, Field))
      requires CollisionFree(foreign.hash, unhash)
      ensures Valid() && this.foreign == foreign
      ensures nextNftId == 0 && actions == [] && events == []
      ensures ownerRoot == ipfsHashRoot == priceRoot == DefaultRoot(foreign.hash)
      ensures owners == ipfsHashes == prices == EmptyTree(DEPTH)
    {
      this.foreign := foreign;
      this.unhash := unhash;
      nextNftId := 0;
      ownerRoot := DefaultRoot(foreign.hash);
      ipfsHashRoot := DefaultRoot(foreign.hash);
      priceRoot := DefaultRoot(foreign.hash);
      actions := [];
      events := [];
      owners := EmptyTree(DEPTH);
      ipfsHashes := EmptyTree(DEPTH);
      prices := EmptyTree(DEPTH);
    }

    /** `isOwner` (with `owner` the sender) and `isCurrentOwner`: the witness
        names `id` and verifies `owner`'s leaf against the owner root, that
        is, `owner` owns `id` and the witness is the tree's own. */
    function IsCurrentOwner(id: Field, owner: PublicKey, w: NftWitness): (r: bool)
      reads this
      requires Valid()
      ensures r <==> Owns(id, owner) && w == OwnerWitness(id)
      ensures r ==> forall v :: CalculateRoot(foreign.hash, w, v) == RootOf(foreign.hash, SetLeaf(owners, DEPTH, id, v))
    {
      WitnessVerifies(foreign.hash, unhash, owners, w, id, foreign.ownerLeaf(owner));
      if CalculateIndex(w) == id && CalculateRoot(foreign.hash, w, foreign.ownerLeaf(owner)) == ownerRoot then
        WitnessUpdates(foreign.hash, owners, DEPTH, id);
        true
      else false
    }

    /** `isNotOnMarketplace`: the witness names `id` and verifies the empty
        leaf against the price root, that is, `id` is unlisted. */
    function IsNotOnMarketplace(id: Field, w: NftWitness): (r: bool)
      reads this
      requires Valid()
      ensures r <==> Unlisted(id) && w == PriceWitness(id)
      ensures r ==> CalculateIndex(w) == id
      ensures r ==> forall v :: CalculateRoot(foreign.hash, w, v) == RootOf(foreign.hash, SetLeaf(prices, DEPTH, id, v))
    {
      WitnessVerifies(foreign.hash, unhash, prices, w, id, EMPTY_LEAF);
      if CalculateIndex(w) == id && CalculateRoot(foreign.hash, w, EMPTY_LEAF) == priceRoot then
        WitnessUpdates(foreign.hash, prices, DEPTH, id);
        true
      else false
    }

    /** The price assertion of `buy`: the witness verifies the leaf of
        `price` against the price root, that is, the slot the witness names
        holds `price`. */
    function PriceVerifies(price: UInt64, w: NftWitness): (r: bool)
      reads this
      requires Valid()
      ensures r <==> var j := CalculateIndex(w);
                     j < LEAF_COUNT && LeafAt(prices, DEPTH, j) == Storage.PriceLeaf(price) && w == PriceWitness(j)
      ensures r ==> forall v :: CalculateRoot(foreign.hash, w, v) == RootOf(foreign.hash, SetLeaf(prices, DEPTH, CalculateIndex(w), v))
    {
      var j := CalculateIndex(w);
      WitnessVerifies(foreign.hash, unhash, prices, w, j, Storage.PriceLeaf(price));
      if CalculateRoot(foreign.hash, w, Storage.PriceLeaf(price)) == priceRoot then
        WitnessUpdates(foreign.hash, prices, DEPTH, j);
        true
      else false
    }

    /** What `buy` checks, in tree terms: the price witness, for whichever
        index j it names, verifies `price` at j; it is not the case that j is
        `id` with price 0; and `currentOwner` owns `id`. */
    ghost predicate BuyAllowed(id: Field, price: UInt64, priceWitness: NftWitness,
                               currentOwner: PublicKey, currentOwnerWitness: NftWitness)
      reads this
      requires Valid()
    {
      var j := CalculateIndex(priceWitness);
      && LeafAt(prices, DEPTH, j) == Storage.PriceLeaf(price) && priceWitness == PriceWitness(j)
      && !(j == id && price == 0)
      && Owns(id, currentOwner) && currentOwnerWitness == OwnerWitness(id)
    }

    /** The two assertions of `mint`: both witnesses name `nextNftId` and
        verify an empty leaf. When they hold, each witness recomputes its
        tree's root with any new leaf at `nextNftId`. */
    function MintChecks(ownerWitness: NftWitness, ipfsHashWitness: NftWitness): (r: bool)
      reads this
      requires Valid()
      ensures r <==> && nextNftId < LEAF_COUNT && LeafAt(owners, DEPTH, nextNftId) == EMPTY_LEAF && LeafAt(ipfsHashes, DEPTH, nextNftId) == EMPTY_LEAF
                     && ownerWitness == OwnerWitness(nextNftId) && ipfsHashWitness == IpfsHashWitness(nextNftId)
      ensures r ==> forall v :: CalculateRoot(foreign.hash, ownerWitness, v) == RootOf(foreign.hash, SetLeaf(owners, DEPTH, nextNftId, v))
      ensures r ==> forall v :: CalculateRoot(foreign.hash, ipfsHashWitness, v) == RootOf(foreign.hash, SetLeaf(ipfsHashes, DEPTH, nextNftId, v))
    {
      var id, h := nextNftId, foreign.hash;
      WitnessVerifies(h, unhash, owners, ownerWitness, id, EMPTY_LEAF);
      WitnessVerifies(h, unhash, ipfsHashes, ipfsHashWitness, id, EMPTY_LEAF);
      var r := CalculateIndex(ownerWitness) == id && CalculateIndex(ipfsHashWitness) == id
               && CalculateRoot(h, ownerWitness, EMPTY_LEAF) == ownerRoot
               && CalculateRoot(h, ipfsHashWitness, EMPTY_LEAF) == ipfsHashRoot;
      if r then
        WitnessUpdates(h, owners, DEPTH, id);
        WitnessUpdates(h, ipfsHashes, DEPTH, id);
        true
      else false
    }

    /** `mint`: both witnesses must name `nextNftId` and verify an empty leaf
        in their trees;
        the sender then owns the new id, its content hash is recorded, the id
        counter grows by one and the `Metadata` action is dispatched. */
    method Mint(sender: PublicKey, ipfsHash: IpfsHash, ownerWitness: NftWitness, ipfsHashWitness: NftWitness)
      returns (ok: bool)
      requires Valid()
      modifies this
      ensures Valid()
      ensures ok <==> old(nextNftId < LEAF_COUNT && LeafAt(owners, DEPTH, nextNftId) == EMPTY_LEAF && LeafAt(ipfsHashes, DEPTH, nextNftId) == EMPTY_LEAF
                          && ownerWitness == OwnerWitness(nextNftId) && ipfsHashWitness == IpfsHashWitness(nextNftId))
      ensures ok ==> && nextNftId == old(nextNftId) + 1
                     && owners == SetLeaf(old(owners), DEPTH, old(nextNftId), foreign.ownerLeaf(sender))
                     && ipfsHashes == SetLeaf(old(ipfsHashes), DEPTH, old(nextNftId), foreign.ipfsLeaf(ipfsHash))
                     && prices == old(prices) && priceRoot == old(priceRoot)
                     && actions == old(actions) + [Metadata(old(nextNftId), sender, ipfsHash)]
                     && events == old(events)
      ensures !ok ==> unchanged(this)
    {
      if !MintChecks(ownerWitness, ipfsHashWitness) {
        return false;
      }
      var id, h := nextNftId, foreign.hash;
      var ownerLeaf, ipfsLeaf := foreign.ownerLeaf(sender), foreign.ipfsLeaf(ipfsHash);
      ghost var newIpfsHashes := SetLeaf(ipfsHashes, DEPTH, id, ipfsLeaf);
      nextNftId, ownerRoot, ipfsHashRoot, actions, owners, ipfsHashes
        := id + 1, CalculateRoot(h, ownerWitness, ownerLeaf), CalculateRoot(h, ipfsHashWitness, ipfsLeaf),
           actions + [Metadata(id, sender, ipfsHash)], SetLeaf(owners, DEPTH, id, ownerLeaf), newIpfsHashes;
      ok := true;
    }

    /** `transfer`: the sender must own `id` and `id` must be unlisted; only
        the owner leaf at `id` changes, to `to`'s, and an action with an empty
        content hash is dispatched. */
    method Transfer(sender: PublicKey, id: Field, ownerWitness: NftWitness, priceWitness: NftWitness, to: PublicKey)
      returns (ok: bool)
      requires Valid()
      modifies this
      ensures Valid()
      ensures ok <==> old(Owns(id, sender) && ownerWitness == OwnerWitness(id)
                          && Unlisted(id) && priceWitness == PriceWitness(id))
      ensures ok ==> && owners == SetLeaf(old(owners), DEPTH, id, foreign.ownerLeaf(to))
                     && ipfsHashes == old(ipfsHashes) && prices == old(prices) && nextNftId == old(nextNftId)
                     && ipfsHashRoot == old(ipfsHashRoot) && priceRoot == old(priceRoot)
                     && actions == old(actions) + [Metadata(id, to, foreign.emptyIpfsHash)]
                     && events == old(events)
      ensures !ok ==> unchanged(this)
    {
      if !(IsCurrentOwner(id, sender, ownerWitness) && IsNotOnMarketplace(id, priceWitness)) {
        return false;
      }
      var leaf := foreign.ownerLeaf(to);
      ownerRoot, actions, owners
        := CalculateRoot(foreign.hash, ownerWitness, leaf), actions + [Metadata(id, to, foreign.emptyIpfsHash)],
           SetLeaf(owners, DEPTH, id, leaf);
      ok := true;
    }

    /** `createMarketItem`: the sender must own `id` and `id` must be
        unlisted; only the price leaf at `id` changes, to the price, and the
        listing event is emitted. */
    method CreateMarketItem(sender: PublicKey, id: Field, price: UInt64, ownerWitness: NftWitness, priceWitness: NftWitness)
      returns (ok: bool)
      requires Valid()
      modifies this
      ensures Valid()
      ensures ok <==> old(Owns(id, sender) && ownerWitness == OwnerWitness(id)
                          && Unlisted(id) && priceWitness == PriceWitness(id))
      ensures ok ==> && prices == SetLeaf(old(prices), DEPTH, id, Storage.PriceLeaf(price))
                     && owners == old(owners) && ipfsHashes == old(ipfsHashes) && nextNftId == old(nextNftId)
                     && ownerRoot == old(ownerRoot) && ipfsHashRoot == old(ipfsHashRoot)
                     && events == old(events) + [MarketItem(id, price)]
                     && actions == old(actions)
      ensures !ok ==> unchanged(this)
    {
      if !(IsCurrentOwner(id, sender, ownerWitness) && IsNotOnMarketplace(id, priceWitness)) {
        return false;
      }
      var leaf := Storage.PriceLeaf(price);
      priceRoot, events, prices
        := CalculateRoot(foreign.hash, priceWitness, leaf), events + [MarketItem(id, price)],
           SetLeaf(prices, DEPTH, id, leaf);
      ok := true;
    }

    /** The three assertions of `buy`, in order. When they hold, the two
        witnesses recompute the owner root with any leaf at `id` and the
        price root with any leaf at the slot the price witness names. */
    function BuyChecks(id: Field, price: UInt64, priceWitness: NftWitness,
                       currentOwner: PublicKey, currentOwnerWitness: NftWitness): (r: bool)
      reads this
      requires Valid()
      ensures r <==> BuyAllowed(id, price, priceWitness, currentOwner, currentOwnerWitness)
      ensures r ==> forall v :: CalculateRoot(foreign.hash, currentOwnerWitness, v) == RootOf(foreign.hash, SetLeaf(owners, DEPTH, id, v))
      ensures r ==> forall v :: CalculateRoot(foreign.hash, priceWitness, v)
                                  == RootOf(foreign.hash, SetLeaf(prices, DEPTH, CalculateIndex(priceWitness), v))
    {
      !IsNotOnMarketplace(id, priceWitness) && PriceVerifies(price, priceWitness)
      && IsCurrentOwner(id, currentOwner, currentOwnerWitness)
    }

    /** `buy`: see `BuyAllowed`. The buyer becomes the owner of `id`, the
        price leaf at the price witness's index is cleared, a sale event with
        price 0 is emitted and an action with an empty content hash is
        dispatched; the content-hash tree and the id counter are untouched. */
    method Buy(sender: PublicKey, id: Field, price: UInt64, priceWitness: NftWitness,
               currentOwner: PublicKey, currentOwnerWitness: NftWitness)
      returns (ok: bool)
      requires Valid()
      modifies this
      ensures Valid()
      ensures ok <==> old(BuyAllowed(id, price, priceWitness, currentOwner, currentOwnerWitness))
      ensures ok ==> && owners == SetLeaf(old(owners), DEPTH, id, foreign.ownerLeaf(sender))
                     && prices == SetLeaf(old(prices), DEPTH, CalculateIndex(priceWitness), EMPTY_LEAF)
                     && ipfsHashes == old(ipfsHashes) && ipfsHashRoot == old(ipfsHashRoot)
                     && nextNftId == old(nextNftId)
                     && events == old(events) + [MarketItem(id, 0)]
                     && actions == old(actions) + [Metadata(id, sender, foreign.emptyIpfsHash)]
      ensures !ok ==> unchanged(this)
    {
      if !BuyChecks(id, price, priceWitness, currentOwner, currentOwnerWitness) {
        return false;
      }
      var ownerLeaf := foreign.ownerLeaf(sender);
      ownerRoot, priceRoot, events, actions, owners, prices
        := CalculateRoot(foreign.hash, currentOwnerWitness, ownerLeaf),
           CalculateRoot(foreign.hash, priceWitness, Storage.PriceLeaf(0)),
           events + [MarketItem(id, 0)], actions + [Metadata(id, sender, foreign.emptyIpfsHash)],
           SetLeaf(owners, DEPTH, id, ownerLeaf), SetLeaf(prices, DEPTH, CalculateIndex(priceWitness), EMPTY_LEAF);
      ok := true;
    }

    /** `buy` never checks that the price witness names `id`: an owned item
        that is not for sale can be bought for 0 with the witness of any other
        empty price slot. */
    lemma UnlistedBuyableForFree(id: Field, j: Field, currentOwner: PublicKey)
      requires Valid() && Owns(id, currentOwner) && Unlisted(id)
      requires j < LEAF_COUNT && j != id && LeafAt(prices, DEPTH, j) == EMPTY_LEAF
      ensures BuyAllowed(id, 0, PriceWitness(j), currentOwner, OwnerWitness(id))
    {
      WitnessIndex(foreign.hash, prices, DEPTH, j);
    }
  }
}
