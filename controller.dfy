/**
 * The query side of `AppController`: the three witness endpoints with their
 * `[0, MAX_NFT_ITEM)` guard, the three leaf endpoints, and the market-item
 * listing filter. HTTP routing and the IPFS endpoints are not modelled; an
 * endpoint is a function of the service's state and the request parameter.
 */
module Controller {
  import opened Primitives
  import opened Merkle
  import opened Schemas
  import opened Reconcile
  import Storage
  import Service

  /** A handler's outcome: a value, or `BadRequestException`. */
  datatype Response<T> = Ok(value: T) | BadRequest

  // ---------------------------------------------------------------------
  // Witness endpoints

  /** `getOwnerWitness(id)`: out-of-range ids are refused; otherwise the
      owner tree's witness of `id`, which names `id` and hashes the current
      owner leaf up to the current root (and any other value up to the root
      the tree would have with that value at `id`). */
  function GetOwnerWitness(service: Service.NftContractService, id: int): (r: Response<NftWitness>)
    reads service.ownerStorage
    requires service.ownerStorage.Valid()
    ensures r.BadRequest? <==> id < 0 || id >= MAX_NFT_ITEM
    ensures r.Ok? ==> 0 <= id && CalculateIndex(r.value) == id
    ensures r.Ok? ==> CalculateRoot(service.ownerStorage.hash, r.value, Storage.LeafOr(service.ownerStorage.leafs, id))
                      == service.ownerStorage.Root()
    ensures r.Ok? ==> forall v :: CalculateRoot(service.ownerStorage.hash, r.value, v)
                                  == RootOf(service.ownerStorage.hash, Storage.TreeFrom(service.ownerStorage.leafs[id := v], DEPTH, 0))
  {
    if id < 0 || id >= MAX_NFT_ITEM then BadRequest
    else Ok(service.ownerStorage.GetWitness(id))
  }

  /** `getPriceWitness(id)`: the same guard over the price tree. */
  function GetPriceWitness(service: Service.NftContractService, id: int): (r: Response<NftWitness>)
    reads service.priceStorage
    requires service.priceStorage.Valid()
    ensures r.BadRequest? <==> id < 0 || id >= MAX_NFT_ITEM
    ensures r.Ok? ==> 0 <= id && CalculateIndex(r.value) == id
    ensures r.Ok? ==> CalculateRoot(service.priceStorage.hash, r.value, Storage.LeafOr(service.priceStorage.leafs, id))
                      == service.priceStorage.Root()
    ensures r.Ok? ==> forall v :: CalculateRoot(service.priceStorage.hash, r.value, v)
                                  == RootOf(service.priceStorage.hash, Storage.TreeFrom(service.priceStorage.leafs[id := v], DEPTH, 0))
  {
    if id < 0 || id >= MAX_NFT_ITEM then BadRequest
    else Ok(service.priceStorage.GetWitness(id))
  }

  /** `getIpfsHashWitness(id)`: the same guard over the content-hash tree. */
  function GetIpfsHashWitness(service: Service.NftContractService, id: int): (r: Response<NftWitness>)
    reads service.ipfsHashStorage
    requires service.ipfsHashStorage.Valid()
    ensures r.BadRequest? <==> id < 0 || id >= MAX_NFT_ITEM
    ensures r.Ok? ==> 0 <= id && CalculateIndex(r.value) == id
    ensures r.Ok? ==> CalculateRoot(service.ipfsHashStorage.hash, r.value, Storage.LeafOr(service.ipfsHashStorage.leafs, id))
                      == service.ipfsHashStorage.Root()
    ensures r.Ok? ==> forall v :: CalculateRoot(service.ipfsHashStorage.hash, r.value, v)
                                  == RootOf(service.ipfsHashStorage.hash, Storage.TreeFrom(service.ipfsHashStorage.leafs[id := v], DEPTH, 0))
  {
    if id < 0 || id >= MAX_NFT_ITEM then BadRequest
    else Ok(service.ipfsHashStorage.GetWitness(id))
  }

  // ---------------------------------------------------------------------
  // Leaf endpoints

  /** The served leaf record determines the tree: every index it names lies
      inside the tree, each leaf of the tree is the record's entry (or the
      empty leaf), and rebuilding from the record gives the current root. */
  ghost predicate Describes(storage: Storage.LeafStorage, leafs: map<nat, Field>)
    reads storage
  {
    && (forall i | i in leafs :: i < LEAF_COUNT)
    && (forall i | 0 <= i < LEAF_COUNT :: LeafAt(storage.Tree(), DEPTH, i) == Storage.LeafOr(leafs, i))
    && RootOf(storage.hash, Storage.TreeFrom(leafs, DEPTH, 0)) == storage.Root()
  }

  /** Every leaf of a tree built from a record is the record's entry. */
  lemma TreeFromLeaves(leafs: map<nat, Field>, d: nat)
    ensures forall i | 0 <= i < Pow2(d) :: LeafAt(Storage.TreeFrom(leafs, d, 0), d, i) == Storage.LeafOr(leafs, i)
  {
    forall i | 0 <= i < Pow2(d)
      ensures LeafAt(Storage.TreeFrom(leafs, d, 0), d, i) == Storage.LeafOr(leafs, i)
    {
      Storage.TreeFromLeafAt(leafs, d, 0, i);
    }
  }

  /** A storage's record describes its tree. */
  lemma RecordDescribes(storage: Storage.LeafStorage)
    requires storage.Valid()
    ensures Describes(storage, storage.leafs)
  {
    TreeFromLeaves(storage.leafs, DEPTH);
  }

  /** `getOwnerLeafs`: the owner storage's leaf record. */
  function GetOwnerLeafs(service: Service.NftContractService): (r: map<nat, Field>)
    reads service.ownerStorage
    requires service.ownerStorage.Valid()
    ensures r == service.ownerStorage.leafs
    ensures Describes(service.ownerStorage, r)
  {
    RecordDescribes(service.ownerStorage);
    service.ownerStorage.leafs
  }

  /** `getPriceLeafs`: the price storage's leaf record. */
  function GetPriceLeafs(service: Service.NftContractService): (r: map<nat, Field>)
    reads service.priceStorage
    requires service.priceStorage.Valid()
    ensures r == service.priceStorage.leafs
    ensures Describes(service.priceStorage, r)
  {
    RecordDescribes(service.priceStorage);
    service.priceStorage.leafs
  }

  /** `getIpfsHashLeafs`: the content-hash storage's leaf record. */
  function GetIpfsHashLeafs(service: Service.NftContractService): (r: map<nat, Field>)
    reads service.ipfsHashStorage
    requires service.ipfsHashStorage.Valid()
    ensures r == service.ipfsHashStorage.leafs
    ensures Describes(service.ipfsHashStorage, r)
  {
    RecordDescribes(service.ipfsHashStorage);
    service.ipfsHashStorage.leafs
  }

  // ---------------------------------------------------------------------
  // Market listing

  /** `getMarketItems`: the stored listings whose price is positive. */
  function GetMarketItems(items: map<nat, MarketItemRow>): (r: map<nat, MarketItemRow>)
    ensures forall id :: id in r <==> id in items && items[id].price > 0
    ensures forall id | id in r :: r[id] == items[id]
  {
    map id | id in items && items[id].price > 0 :: items[id]
  }

  /** After `updateMarketItem`, an item below 32 with events is on the market
      exactly when its highest-`eventId` event carries a positive price: a
      sale (price 0) takes it off. */
  lemma ListedAfterProjection(events: map<nat, EventRow>, items: map<nat, MarketItemRow>, id: nat, last: nat)
    requires id < MAX_NFT_ITEM
    requires last in events && events[last].id == id
    requires forall k | k in events && events[k].id == id :: k <= last
    ensures var market := GetMarketItems(ProjectListings(events, items));
            (id in market <==> events[last].price > 0)
            && (id in market ==> market[id] == MarketItemRow(id, events[last].price))
  {
    ProjectedListing(events, items, id, last);
  }

  /** An item the events never mention keeps its previous market status. */
  lemma UnlistedKeepsStatus(events: map<nat, EventRow>, items: map<nat, MarketItemRow>, id: nat)
    requires forall k | k in events :: events[k].id != id
    ensures (id in GetMarketItems(ProjectListings(events, items))) <==> (id in GetMarketItems(items))
  {
    UntouchedListing(events, items, id);
  }

  // ---------------------------------------------------------------------
  // The tree height as written

  /** What a witness request against the storages as written yields: the
      guard's refusal, an admitted id that the tree has no leaf for, or a
      witness. */
  datatype AsWrittenResponse = Refused | NoSuchLeaf | Witness(path: Path)

  /** The capacity o1js gives `new MerkleTree(height)`: 2^(height-1) leaves,
      reached by witnesses of height - 1 steps. This formula is o1js's own
      documented `leafCount`, taken as given here; the as-written witness
      endpoint below is where it is used. */
  function TreeCapacity(height: nat): (n: nat)
    requires height >= 1
    ensures 2 * n == Pow2(height)
  {
    Pow2(height - 1)
  }

  /** `getOwnerWitness` against `new MerkleTree(NFT_TREE_HEIGHT)`: the guard
      admits every id below `MAX_NFT_ITEM = 2^NFT_TREE_HEIGHT`, but the tree
      only has `2^(NFT_TREE_HEIGHT-1)` leaves. */
  function GetOwnerWitnessAsWritten(hash: (Field, Field) -> Field, leafs: map<nat, Field>, id: int): (r: AsWrittenResponse)
    ensures r.Refused? <==> id < 0 || id >= MAX_NFT_ITEM
    ensures r.Witness? ==> 0 <= id < TreeCapacity(NFT_TREE_HEIGHT) && |r.path| == NFT_TREE_HEIGHT - 1
  {
    var height := NFT_TREE_HEIGHT - 1;
    if id < 0 || id >= MAX_NFT_ITEM then Refused
    else if id >= TreeCapacity(NFT_TREE_HEIGHT) then NoSuchLeaf
    else Witness(WitnessOf(hash, Storage.TreeFrom(leafs, height, 0), height, id))
  }

  /** As written, the guard admits exactly the ids 16..31 that the tree has
      no leaf for; the model's trees hold all 32, so each admitted id gets a
      witness naming it. */
  lemma GuardAdmitsMissingLeaves(hash: (Field, Field) -> Field, leafs: map<nat, Field>, id: int)
    ensures GetOwnerWitnessAsWritten(hash, leafs, id).NoSuchLeaf? <==> 16 <= id < 32
    ensures 16 <= id < 32 ==> LEAF_COUNT == MAX_NFT_ITEM && id < LEAF_COUNT
  {
    assert TreeCapacity(NFT_TREE_HEIGHT) == 16;
  }
}
