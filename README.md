# mina-nft-backend reconciliation engine, modelled in Dafny

The backend mirrors an NFT zkApp on Mina. The on-chain `NFT` contract keeps
only four fields: `nextNftId` and the roots of three height-5 Merkle trees
(owner, content hash, price). Every state change is published as a reducer
action (`Metadata`) or an `update-market-item` event (`MarketItem`).
`NftContractService.update` pulls the remote action and event lists into four
database collections. It projects them per item into metadata and listing rows,
and rebuilds three leaf storages whose roots should equal the contract's. The
HTTP controller serves witnesses from those storages, so that clients can build
the next transaction, together with the leaf records and the listed items.

The project models:

- `merkle.dfy` (`Merkle`): the o1js `MerkleTree`/`MerkleWitness` over an
  uninterpreted 2-to-1 hash. A tree is an explicit `Tree` value. A witness
  is the leaf-to-root list of `(isLeft, sibling)` steps. `CalculateRoot` and
  `CalculateIndex` are the witness's own methods.
- `storage.dfy` (`Storage`): `OwnerStorage`, `IpfsHashStorage` and
  `PriceStorage`, one `LeafStorage` class. Its `leafs` map is updated in place.
  Its tree is the one that map determines.
- `contract.dfy` (`Contract`): the `NFT` zkApp as a class over its four state
  fields. It also holds the action and event logs, and ghost trees whose roots
  the fields store. A failed assertion rejects the transaction: the method
  returns `false` and changes nothing.
- `queries.dfy`, `schemas.dfy`, `utilities.dfy`: the sorted database lookups,
  the row types, `getMarketItem`, and the array conversions of `Utilities`.
- `reconcile.dfy` (`Reconcile`): what each phase of `update` computes, as
  functions of the collections. It also holds the properties of those
  functions: row placement, chaining, keying, first/last projection,
  idempotence.
- `service.dfy` (`Service`): `NftContractService` as a class whose phase
  methods loop and upsert as the source does. Each is proved equal to its
  `Reconcile` function.
- `controller.dfy` (`Controller`): the witness range guard, the leaf
  endpoints and the `price > 0` market filter.

Foreign code is passed in as a `Primitives.Foreign` record of functions. This
covers:

- the Poseidon hash;
- the owner and content-hash leaf codecs;
- `Reducer.initialActionState`;
- the `getNftMetadata` payload decoder;
- JavaScript's `Number`;
- `IpfsHash.empty()`.

Collision resistance of the hash is an explicit hypothesis (`CollisionFree`,
with a ghost inverse). A Mongo collection is a map from its unique key to its
row, and an upsert is a map update. The remote action and event lists are
inputs of the fetch phases.

## Model

| member | source | states |
|---|---|---|
| Merkle.EmptyTree | src/nft-contract/nft-contract.ts:38 | `new MerkleTree(...)` is a complete tree of the fixed depth |
| Merkle.EmptyLeafAt | src/nft-contract/nft-contract.ts:38-40 | every leaf of a new tree reads `Field(0)` |
| Merkle.CalculateIndex | src/nft-contract/nft-contract.ts:182-183 | the index a witness names is below 2^(its length) |
| Merkle.CalculateRoot | src/nft-contract/nft-contract.ts:185-199 | `calculateRoot(v)` hashes v up the path; WitnessRoundTrip, WitnessUpdate and WitnessVerifies state what it computes for a tree's own witness |
| Merkle.RootOf | src/nft-contract/nft-contract.ts:58-60 | `getRoot`, the hash of the two subtrees' roots; a witness recomputes it (WitnessRoundTrip) |
| Merkle.LeafAt | src/nft-contract/nft-contract.ts:70-73 | `getNode(0, i)`, the value of leaf i; EmptyLeafAt and LeafAtSetLeaf give it for a new and an updated tree |
| Merkle.SetLeaf | src/nft-contract/nft-contract.ts:70-73 | `setLeaf` keeps the tree complete at its depth; LeafAtSetLeaf states that exactly leaf i changes |
| Merkle.WitnessOf | src/nft-contract/nft-contract.ts:66-68 | `getWitness(i)` has one step per level; WitnessIndex and WitnessRoundTrip state that it names i and verifies leaf i |
| Merkle.DefaultRoot | src/nft-contract/nft-contract.ts:38-40 | `DefaultRootForNftTree` is the root of the empty tree; NewStorageRoot ties it to a new storage |
| Merkle.LeafAtSetLeaf | src/nft-contract/nft-contract.ts:70-73 | `setLeaf(i, v)` makes leaf i read v and leaves every other leaf unchanged |
| Merkle.TreeExtensionality | src/nft-contract/nft-contract.ts:42-46 | a complete tree is determined by its leaves |
| Merkle.SetLeafSame | src/nft-contract/nft-contract.ts:70-73 | writing back a leaf's own value leaves the tree unchanged |
| Merkle.WitnessIndex | src/nft-contract/nft-contract.ts:66-68 | the witness of leaf i names index i |
| Merkle.WitnessRoundTrip | src/nft-contract/nft-contract.ts:66-68 | the witness of leaf i names i and hashes leaf i up to the root |
| Merkle.WitnessUpdate | src/nft-contract/nft-contract.ts:192-199 | hashing a new value up the witness of leaf i gives the root of the tree with leaf i replaced |
| Merkle.WitnessUpdates | src/nft-contract/nft-contract.ts:219-221 | the same for every new value at once |
| Merkle.WitnessBinding | src/nft-contract/nft-contract.ts:285-294 | with a collision-free hash, a path that hashes v up to the root is the tree's own witness of the index it names, and that leaf holds v |
| Merkle.WitnessVerifies | src/nft-contract/nft-contract.ts:296-320 | a witness names i and verifies v against the root iff leaf i is v and the witness is the tree's witness of i |
| Merkle.VerifiedUpdate | src/nft-contract/nft-contract.ts:254-270 | a witness that verifies some leaf also computes the root after that leaf is replaced |
| Storage.PriceLeaf | src/nft-contract/nft-contract.ts:151-153 | a price's leaf is the empty leaf iff the price is 0 |
| Storage.TreeFromLeafAt | src/nft-contract/nft-contract.ts:62-64 | leaf i of the tree a record determines is the record's entry at i, `Field(0)` if none |
| Storage.TreeFromEmpty | src/nft-contract/nft-contract.ts:48-50 | the empty record determines the empty tree |
| Storage.RecordSet | src/nft-contract/nft-contract.ts:70-73 | setting entry i of the record is `setLeaf(i, v)` on its tree |
| Storage.RecordRoundTrip | src/nft-contract/nft-contract.ts:66-68 | the witness of i from a record's tree names i and hashes the recorded leaf up to the root |
| Storage.RecordWitness | src/nft-contract/nft-contract.ts:66-68 | hashing any v up that witness gives the root of the record with entry i set to v |
| Storage.AppliedLastWins | src/nft-contract/nft-contract.ts:48-56 | with an initial entry list, the last entry for an index decides its leaf |
| Storage.AppliedUntouched | src/nft-contract/nft-contract.ts:48-56 | an index no entry names keeps its leaf or its absence |
| Storage.NewStorageRoot | src/nft-contract/nft-contract.ts:40 | a new storage's root is `DefaultRootForNftTree` |
| Storage.LeafStorage.Root | src/nft-contract/nft-contract.ts:58-60 | the `root` getter is the root of the tree the record determines; GetWitness recomputes it from the current leaf and NewStorageRoot gives it for a new storage |
| Storage.LeafStorage.constructor | src/nft-contract/nft-contract.ts:48-56 | a storage built from an entry list holds the entries applied in list order |
| Storage.LeafStorage.UpdateLeafs | src/nft-contract/nft-contract.ts:51-55 | the constructor's loop applies `updateLeaf` per entry, in order |
| Storage.LeafStorage.GetWitness | src/nft-contract/nft-contract.ts:66-68 | `getWitness(i)` names i, hashes the current leaf up to `root`, and hashes any v up to the root with leaf i set to v |
| Storage.LeafStorage.UpdateLeaf | src/nft-contract/nft-contract.ts:70-73 | `updateLeaf` refuses an index outside the tree and otherwise sets exactly the record entry at the index |
| Contract.NftContract.constructor | src/nft-contract/nft-contract.ts:168-173 | `init`: the three roots are the empty tree's root, no id is used, both logs are empty |
| Contract.NftContract.IsCurrentOwner | src/nft-contract/nft-contract.ts:285-309 | `isOwner`/`isCurrentOwner` hold iff the owner leaf at id is that key's and the witness is the tree's witness of id |
| Contract.NftContract.IsNotOnMarketplace | src/nft-contract/nft-contract.ts:311-320 | holds iff the price leaf at id is empty and the witness is the tree's witness of id |
| Contract.NftContract.PriceVerifies | src/nft-contract/nft-contract.ts:254-256 | the price assertion of `buy` holds iff the slot the witness names holds that price's leaf |
| Contract.NftContract.MintChecks | src/nft-contract/nft-contract.ts:180-190 | the mint assertions hold iff `nextNftId` is inside the tree, both its leaves are empty, and both witnesses are the trees' witnesses of it |
| Contract.NftContract.Mint | src/nft-contract/nft-contract.ts:175-208 | accepted exactly under those checks; the sender owns the new id, its content hash is recorded, the counter grows by one, the action is dispatched, and nothing else changes; a rejected call changes nothing |
| Contract.NftContract.Transfer | src/nft-contract/nft-contract.ts:210-225 | accepted iff the sender owns id and id is unlisted; only the owner leaf changes, to `to`'s, and an action with an empty content hash is dispatched |
| Contract.NftContract.CreateMarketItem | src/nft-contract/nft-contract.ts:227-244 | accepted iff the sender owns id and id is unlisted; only the price leaf changes, and the listing event is emitted |
| Contract.NftContract.BuyChecks | src/nft-contract/nft-contract.ts:253-257 | the three assertions of `buy` hold iff `BuyAllowed` |
| Contract.NftContract.Buy | src/nft-contract/nft-contract.ts:246-283 | accepted iff `BuyAllowed`; the buyer owns id, the price slot the witness names is cleared, a price-0 event and an empty-hash action are recorded |
| Contract.NftContract.UnlistedBuyableForFree | src/nft-contract/nft-contract.ts:253-257 | `buy` never ties the price witness to id: an owned, unlisted item passes its checks at price 0 with the witness of any other empty slot |
| Utilities.FieldsOf | src/utilities.ts:4-10 | element i of the result is the field of input element i |
| Utilities.TextsOf | src/utilities.ts:12-18 | element i of the result is the text of input element i |
| Utilities.StringArrayToFields | src/utilities.ts:4-10 | the push loop computes `FieldsOf` |
| Utilities.FieldsToStringArray | src/utilities.ts:12-18 | the push loop computes `TextsOf` |
| Utilities.TextRoundTrip | src/utilities.ts:4-18 | text to fields and back is the identity when each element round-trips |
| Utilities.FieldRoundTrip | src/utilities.ts:4-18 | fields to text and back is the identity when each element round-trips |
| Queries.MaxOf | src/nft-contract/nft-contract.service.ts:72-76 | `findOne` sorted by key descending yields a key that no other key exceeds |
| Queries.MinOf | src/nft-contract/nft-contract.service.ts:116-126 | the first row of a `find` sorted ascending has a key no other key undercuts |
| Schemas.GetMarketItem | src/schemas/update-market-item-event.schema.ts:27-33 | id is `Number` of entry 0 and price is `Number` of entry 1 |
| Schemas.GetMarketItemPrefix | src/schemas/update-market-item-event.schema.ts:27-33 | payloads that agree on their first two entries decode alike |
| Schemas.MarketItemFields | src/nft-contract/nft-contract.ts:29-32 | the struct's fields in declaration order: id, then price |
| Schemas.MarketItemRoundTrip | src/nft-contract/nft-contract.ts:240-243 | decoding the text of an emitted `MarketItem` gives back its id and price |
| Reconcile.Drop | src/nft-contract/nft-contract.service.ts:86 | `slice(start)` keeps `length - start` entries, none past the end |
| Reconcile.ActionCursor | src/nft-contract/nft-contract.service.ts:72-89 | on an empty log resume at 0 from the initial state; else one past the highest id, from that row's current state |
| Reconcile.ActionsUpToAll | src/nft-contract/nft-contract.service.ts:90-111 | the upserts add exactly the ids next .. next + n - 1 and keep every other row |
| Reconcile.ActionsUpToRow | src/nft-contract/nft-contract.service.ts:90-111 | the row of slice entry j stays under id `next + j` |
| Reconcile.SyncActionsKeys | src/nft-contract/nft-contract.service.ts:71-112 | after the pass, the log holds the old ids plus exactly the remote ids past the cursor |
| Reconcile.SyncActionsAt | src/nft-contract/nft-contract.service.ts:90-111 | the row for remote action k carries id k, action k's hash, the state it chains from, and action k's decoded payload |
| Reconcile.SyncActionsKeeps | src/nft-contract/nft-contract.service.ts:82-89 | stored rows are kept |
| Reconcile.SyncActionsChain | src/nft-contract/nft-contract.service.ts:80-109 | each new row's previous state is the current state of the row before it (the initial state for id 0) |
| Reconcile.SyncActionsKeyed | src/nft-contract/nft-contract.service.ts:94-99 | a log whose rows sit under their own `actionId` stays so |
| Reconcile.SyncActionsGapless | src/nft-contract/nft-contract.service.ts:82-111 | a log holding ids 0..n-1 afterwards holds ids 0..max(n, remote count)-1 |
| Reconcile.SyncActionsIdempotent | src/nft-contract/nft-contract.service.ts:71-112 | a second pass against the same remote list changes nothing |
| Reconcile.EventCursor | src/nft-contract/nft-contract.service.ts:144-158 | resume at 0 on an empty log, else one past the highest `eventId` |
| Reconcile.EventsUpToAll | src/nft-contract/nft-contract.service.ts:159-175 | the upserts add exactly the ids next .. next + n - 1 and keep every other row |
| Reconcile.EventsUpToRow | src/nft-contract/nft-contract.service.ts:159-175 | the row of slice entry j stays under id `next + j` |
| Reconcile.SyncEventsKeys | src/nft-contract/nft-contract.service.ts:143-176 | after the pass, the log holds the old ids plus exactly the remote ids past the cursor |
| Reconcile.SyncEventsAt | src/nft-contract/nft-contract.service.ts:159-175 | the row for remote event k has id k and `getMarketItem` of its first payload |
| Reconcile.SyncEventsKeeps | src/nft-contract/nft-contract.service.ts:153-158 | stored rows are kept |
| Reconcile.SyncEventsIdempotent | src/nft-contract/nft-contract.service.ts:143-176 | a second pass against the same remote list changes nothing |
| Reconcile.MetadataUpToAll | src/nft-contract/nft-contract.service.ts:115-140 | visiting ids in order upserts exactly the ids that have actions |
| Reconcile.MetadataUpToProject | src/nft-contract/nft-contract.service.ts:115 | the loop over ids below 32 gives `ProjectMetadata` |
| Reconcile.ProjectedMetadata | src/nft-contract/nft-contract.service.ts:125-138 | an item below 32 gets the owner of its last action and the content hash of its first |
| Reconcile.UntouchedMetadata | src/nft-contract/nft-contract.service.ts:115-125 | items at or past 32, or without actions, keep their row or its absence |
| Reconcile.ProjectMetadataIdempotent | src/nft-contract/nft-contract.service.ts:114-141 | projecting twice gives the same rows |
| Reconcile.ListingsUpToAll | src/nft-contract/nft-contract.service.ts:179-197 | visiting ids in order upserts exactly the ids that have events |
| Reconcile.ListingsUpToProject | src/nft-contract/nft-contract.service.ts:179 | the loop over ids below 32 gives `ProjectListings` |
| Reconcile.ProjectedListing | src/nft-contract/nft-contract.service.ts:180-196 | an item below 32 is listed at the price of its highest-`eventId` event |
| Reconcile.UntouchedListing | src/nft-contract/nft-contract.service.ts:179-186 | items at or past 32, or without events, keep their row or its absence |
| Reconcile.ProjectListingsIdempotent | src/nft-contract/nft-contract.service.ts:178-199 | projecting twice gives the same rows |
| Reconcile.LeafsUpToAll | src/nft-contract/nft-contract.service.ts:202-229 | visiting ids in order sets exactly the leaves of ids with a row |
| Reconcile.LeafsUpToRebuild | src/nft-contract/nft-contract.service.ts:202 | the loop over ids below 32 gives `RebuildLeafs` |
| Reconcile.RebuiltLeaf | src/nft-contract/nft-contract.service.ts:206-228 | a leaf below 32 is set iff its row exists, to the row's codec; all other leaves are kept |
| Reconcile.RebuildLeafsIdempotent | src/nft-contract/nft-contract.service.ts:201-230 | rebuilding twice gives the same record |
| Reconcile.ReconciledIdempotent | src/nft-contract/nft-contract.service.ts:63-69 | a second `update` against the same remote history changes nothing |
| Service.NftContractService.constructor | src/nft-contract/nft-contract.service.ts:39-53 | three distinct, empty storages over the tree hash; the collections are the database's |
| Service.NftContractService.Update | src/nft-contract/nft-contract.service.ts:63-69 | the five phases in order produce `Reconciled` of the old state, and the storages stay valid |
| Service.NftContractService.FetchActions | src/nft-contract/nft-contract.service.ts:71-112 | the action log becomes `SyncActions` of the old log |
| Service.NftContractService.UpsertActions | src/nft-contract/nft-contract.service.ts:90-111 | the loop upserts the chained row of every slice entry |
| Service.NftContractService.FetchEvents | src/nft-contract/nft-contract.service.ts:143-176 | the event log becomes `SyncEvents` of the old log |
| Service.NftContractService.UpsertEvents | src/nft-contract/nft-contract.service.ts:159-175 | the loop upserts the decoded row of every slice entry |
| Service.NftContractService.UpdateNftMetadata | src/nft-contract/nft-contract.service.ts:114-141 | the metadata becomes `ProjectMetadata` of the action log |
| Service.NftContractService.UpdateMarketItem | src/nft-contract/nft-contract.service.ts:178-199 | the listings become `ProjectListings` of the event log |
| Service.NftContractService.UpdateStorage | src/nft-contract/nft-contract.service.ts:201-230 | each storage's record becomes `RebuildLeafs` of its rows and codec |
| Controller.GetOwnerWitness | src/app.controller.ts:41-47 | BadRequest iff id < 0 or id >= 32; otherwise the witness names id, hashes the current owner leaf up to the root, and hashes any v up to the root with leaf id set to v |
| Controller.GetPriceWitness | src/app.controller.ts:51-57 | the same guard and guarantees over the price storage |
| Controller.GetIpfsHashWitness | src/app.controller.ts:61-69 | the same guard and guarantees over the content-hash storage |
| Controller.RecordDescribes | src/app.controller.ts:73-87 | a storage's record names only indices inside the tree, each tree leaf is its entry, and it rebuilds the root |
| Controller.GetOwnerLeafs | src/app.controller.ts:73-75 | the served record is the owner storage's `leafs` map unchanged, and it determines the owner tree and its root |
| Controller.GetPriceLeafs | src/app.controller.ts:79-81 | the served record is the price storage's `leafs` map unchanged, explicit 0 entries included, and it determines the price tree and its root |
| Controller.GetIpfsHashLeafs | src/app.controller.ts:85-87 | the served record is the content-hash storage's `leafs` map unchanged, and it determines the content-hash tree and its root |
| Controller.GetMarketItems | src/app.controller.ts:91-95 | exactly the stored listings with a positive price, unchanged |
| Controller.ListedAfterProjection | src/app.controller.ts:91-95 | after `updateMarketItem`, an item is on the market iff its last event's price is positive, at that price |
| Controller.UnlistedKeepsStatus | src/app.controller.ts:91-95 | an item no event mentions keeps its market status |
| Controller.TreeCapacity | src/nft-contract/nft-contract.ts:34-38 | an o1js tree of height h holds half of 2^h leaves (o1js's documented `leafCount`, taken as given); GuardAdmitsMissingLeaves is where it is used |
| Controller.GetOwnerWitnessAsWritten | src/app.controller.ts:41-47 | as written, the guard refuses exactly ids outside [0, 32), and a served witness names an id below 16 |
| Controller.GuardAdmitsMissingLeaves | src/app.controller.ts:42-45 | as written, exactly the ids 16..31 pass the guard but have no leaf |

## Findings

| source | as written | input that shows it | evidently intended | confidence | as-written member | corrected member |
|---|---|---|---|---|---|---|
| src/app.controller.ts:42 with src/constants.ts:10-12 and src/nft-contract/nft-contract.ts:34-38 | The witness guard admits ids below `MAX_NFT_ITEM = 2^NFT_TREE_HEIGHT = 32`. `new MerkleTree(NFT_TREE_HEIGHT)` holds only 2^(5-1) = 16 leaves. The service loops also visit ids up to 31. | `GET /witness/owner/:id` with id = 16 | every id the guard and the loops admit has a leaf, so the trees hold 32 leaves | not executed | Controller.GetOwnerWitnessAsWritten, Controller.GuardAdmitsMissingLeaves | Controller.GetOwnerWitness |

The rest of the model uses the corrected size: every tree has 32 leaves and
every witness has 5 steps (`Merkle.DEPTH`, `Merkle.NftWitness`).

## Left out

- Payment in `buy` (`sender.send`) and account signing are not modelled; only the contract's state fields, logs and trees are.
- Mongo is reduced to maps keyed by each collection's unique key. The `unique` constraint on `currentActionState`, the `_id` handling and the document text forms are not modelled.
- The source throws on an action with an empty `actions` list, and on an event with no payload or a payload of fewer than two entries. The model requires readable lists (`ActionsReadable`, `EventsReadable`, and the `GetMarketItem` precondition) instead of modelling the exception.
- Schemas.GetMarketItem: JavaScript `Number` is an opaque function from text to `nat`. Its precision loss above 2^53, and NaN for non-numeric text, are not modelled.
- Reconcile.PriceCodec: the `UInt64` range check of `new UInt64(price)` is not modelled.
- Field elements are `nat`. There is no reduction modulo the field prime. Action states are stored as field values, not as their decimal text.
- Leaf records are keyed by `nat`. In the source they are keyed by the decimal text of the index.
- Service.NftContractService.constructor: the storages start empty as in the source. The entry-list form of the storage constructors is modelled on `Storage.LeafStorage` alone.
- Storage.LeafStorage.constructor: requires every entry's index to lie inside the tree (as does `UpdateLeafs`). The source loops `updateLeaf` over any list, and o1js `setLeaf` throws on an index outside the tree; that exception is not modelled.
- Controller.GetOwnerWitness, Controller.GetPriceWitness, Controller.GetIpfsHashWitness: the guard is modelled on integer ids only. The query parameter reaches the handler as text (the global `ValidationPipe` does not transform it), and the route's `:id` path segment is not what the handler reads. A missing, non-numeric or fractional id passes the guard, because comparisons with NaN are false, and `Field(id)` then throws, so the client gets a server error rather than `BadRequest`. Those requests are not modelled.
- Scheduling (the cron task), `onModuleInit`'s error swallowing, and concurrent runs of `update` are not modelled.
- Queries against the archive node (`QueryService.fetchActions`/`fetchEvents`) become the input lists of the fetch phases. The query service is not part of this model.
- Collision resistance of Poseidon is assumed through `CollisionFree`. The hash, the leaf codecs, the reducer's initial state, `getNftMetadata` and `IpfsHash.empty()` are parameters.
- src/interfaces/* (`Action`, `Event`) is not part of this model. The shapes used are those the service reads: `hash`, `actions[0]`, `events[0].data`.
- The IPFS endpoints, `getHello` and `getNftMetadatas` (a plain read of the collection) are not modelled.
- The reducer's action-state hashing, `Reducer.reduce`, and the link from the on-chain roots to the backend's storages are not modelled. The storages are the backend's own view.
