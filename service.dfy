/**
 * `NftContractService`: the reconciliation engine. The four database
 * collections are maps keyed by their unique index (`actionId`, `eventId`,
 * `id`, `id`), an upsert is a map update, and the remote action and event
 * lists are the inputs of the fetch phases.
 */
module Service {
  import opened Primitives
  import opened Queries
  import opened Schemas
  import opened Reconcile
  import Storage

  class NftContractService {
    const foreign: Foreign
    const ownerStorage: Storage.LeafStorage
    const ipfsHashStorage: Storage.LeafStorage
    const priceStorage: Storage.LeafStorage

    /** The `NftAction` collection. */
    var nftActions: map<nat, NftActionRow>
    /** The `UpdateMarketItemEvent` collection. */
    var marketEvents: map<nat, EventRow>
    /** The `NftMetadata` collection. */
    var nftMetadata: map<nat, NftMetadataRow>
    /** The `MarketItem` collection. */
    var marketItems: map<nat, MarketItemRow>

    /** Three distinct storages over the contract's tree hash. */
    ghost predicate Valid()
      reads ownerStorage, ipfsHashStorage, priceStorage
    {
      && ownerStorage != ipfsHashStorage && ipfsHashStorage != priceStorage && priceStorage != ownerStorage
      && ownerStorage.Valid() && ipfsHashStorage.Valid() && priceStorage.Valid()
      && ownerStorage.hash == foreign.hash && ipfsHashStorage.hash == foreign.hash && priceStorage.hash == foreign.hash
    }

    /** The collections and the storages' leaf records. */
    function State(): Db
      reads this, ownerStorage, ipfsHashStorage, priceStorage
    {
      Db(nftActions, marketEvents, nftMetadata, marketItems,
         ownerStorage.leafs, ipfsHashStorage.leafs, priceStorage.leafs)
    }

    /** The constructor: the collections are whatever the database holds;
        the three storages start empty. */
    constructor (foreign: Foreign, actions: map<nat, NftActionRow>, events: map<nat, EventRow>,
                 metadata: map<nat, NftMetadataRow>, items: map<nat, MarketItemRow>)
      ensures Valid() && this.foreign == foreign
      ensures fresh(ownerStorage) && fresh(ipfsHashStorage) && fresh(priceStorage)
      ensures State() == Db(actions, events, metadata, items, map[], map[], map[])
    {
      this.foreign := foreign;
      ownerStorage := new Storage.LeafStorage(foreign.hash, []);
      ipfsHashStorage := new Storage.LeafStorage(foreign.hash, []);
      priceStorage := new Storage.LeafStorage(foreign.hash, []);
      nftActions := actions;
      marketEvents := events;
      nftMetadata := metadata;
      marketItems := items;
    }

    /** `update`: the five phases in order. */
    method Update(fetchedActions: seq<Action>, fetchedEvents: seq<Event>)
      requires Valid() && ActionsReadable(fetchedActions) && EventsReadable(fetchedEvents)
      modifies this, ownerStorage, ipfsHashStorage, priceStorage
      ensures Valid()
      ensures State() == Reconciled(foreign, old(State()), fetchedActions, fetchedEvents)
    {
      ghost var db := State();
      FetchActions(fetchedActions);
      FetchEvents(fetchedEvents);
      UpdateNftMetadata();
      UpdateMarketItem();
      UpdateStorage();
      ReconciledFrom(foreign, db, fetchedActions, fetchedEvents, State());
    }

    /** `fetchActions`: resume after the highest stored `actionId` (from the
        reducer's initial state on an empty log) and upsert one chained row
        per remaining remote action. */
    method FetchActions(fetched: seq<Action>)
      requires ActionsReadable(fetched)
      modifies this`nftActions
      ensures nftActions == SyncActions(foreign, old(nftActions), fetched)
    {
      ghost var c := ActionCursor(nftActions, foreign.initialActionState);
      var actions := fetched;
      var previousActionState: Field;
      var actionId: nat;
      if nftActions.Keys == {} {
        previousActionState, actionId := foreign.initialActionState, 0;
        assert actions == Drop(fetched, c.next);
      } else {
        var lastAction := MaxOf(nftActions.Keys);
        actions := Drop(actions, lastAction + 1);
        previousActionState, actionId := nftActions[lastAction].currentActionState, lastAction + 1;
      }
      assert Cursor(actionId, previousActionState) == c;
      nftActions := UpsertActions(nftActions, actions, actionId, previousActionState);
    }

    /** The loop of `fetchActions`: one row per action of the remaining
        slice, numbered from `firstId` and chained from `firstPrevious`. */
    method UpsertActions(stored: map<nat, NftActionRow>, actions: seq<Action>, firstId: nat, firstPrevious: Field)
      returns (rows: map<nat, NftActionRow>)
      requires ActionsReadable(actions)
      ensures rows == ActionsUpTo(foreign, stored, actions, Cursor(firstId, firstPrevious), |actions|)
    {
      var previousActionState, actionId := firstPrevious, firstId;
      rows := stored;
      var i := 0;
      while i < |actions|
        invariant 0 <= i <= |actions| && actionId == firstId + i
        invariant previousActionState == if i == 0 then firstPrevious else actions[i - 1].hash
        invariant rows == ActionsUpTo(foreign, stored, actions, Cursor(firstId, firstPrevious), i)
      {
        var action := actions[i];
        var currentActionState := action.hash;
        var metadata := foreign.decodeAction(action.actions[0]);
        rows := rows[actionId := NftActionRow(actionId, currentActionState, previousActionState,
                                              action.actions[0], metadata.id, metadata.owner, metadata.ipfsHash)];
        previousActionState := currentActionState;
        actionId := actionId + 1;
        i := i + 1;
      }
    }

    /** `fetchEvents`: resume after the highest stored `eventId` (from 0 on
        an empty log) and upsert `getMarketItem` of each remaining remote
        event's first payload. */
    method FetchEvents(fetched: seq<Event>)
      requires EventsReadable(fetched)
      modifies this`marketEvents
      ensures marketEvents == SyncEvents(foreign.number, old(marketEvents), fetched)
    {
      ghost var next := EventCursor(marketEvents);
      var events := fetched;
      var eventId: nat;
      if marketEvents.Keys == {} {
        eventId := 0;
        assert events == Drop(fetched, next);
      } else {
        var lastEvent := MaxOf(marketEvents.Keys);
        events := Drop(events, lastEvent + 1);
        eventId := lastEvent + 1;
      }
      marketEvents := UpsertEvents(marketEvents, events, eventId);
    }

    /** The loop of `fetchEvents`: one row per event of the remaining slice,
        numbered from `firstId`. */
    method UpsertEvents(stored: map<nat, EventRow>, events: seq<Event>, firstId: nat)
      returns (rows: map<nat, EventRow>)
      requires EventsReadable(events)
      ensures rows == EventsUpTo(foreign.number, stored, events, firstId, |events|)
    {
      var eventId := firstId;
      rows := stored;
      var i := 0;
      while i < |events|
        invariant 0 <= i <= |events| && eventId == firstId + i
        invariant rows == EventsUpTo(foreign.number, stored, events, firstId, i)
      {
        var marketItem := GetMarketItem(foreign.number, events[i].events[0].data);
        rows := rows[eventId := EventRow(eventId, marketItem.id, marketItem.price)];
        eventId := eventId + 1;
        i := i + 1;
      }
    }

    /** `updateNftMetadata`: for each id below 32 with actions, upsert the
        owner of its last action and the content hash of its first. */
    method UpdateNftMetadata()
      modifies this`nftMetadata
      ensures nftMetadata == ProjectMetadata(nftActions, old(nftMetadata))
    {
      var rows := nftMetadata;
      var id := 0;
      while id < MAX_NFT_ITEM
        invariant 0 <= id <= MAX_NFT_ITEM
        invariant rows == MetadataUpTo(nftActions, nftMetadata, id)
      {
        var actionIds := ActionIdsOf(nftActions, id);
        if actionIds != {} {
          var firstNftAction, lastNftAction := nftActions[MinOf(actionIds)], nftActions[MaxOf(actionIds)];
          rows := rows[id := NftMetadataRow(id, lastNftAction.owner, firstNftAction.ipfsHash)];
        }
        id := id + 1;
      }
      MetadataUpToProject(nftActions, nftMetadata, id);
      nftMetadata := rows;
    }

    /** `updateMarketItem`: for each id below 32 with events, upsert the id
        and price of its last event. */
    method UpdateMarketItem()
      modifies this`marketItems
      ensures marketItems == ProjectListings(marketEvents, old(marketItems))
    {
      var rows := marketItems;
      var id := 0;
      while id < MAX_NFT_ITEM
        invariant 0 <= id <= MAX_NFT_ITEM
        invariant rows == ListingsUpTo(marketEvents, marketItems, id)
      {
        var eventIds := EventIdsOf(marketEvents, id);
        if eventIds != {} {
          var lastEvent := marketEvents[MaxOf(eventIds)];
          rows := rows[id := MarketItemRow(lastEvent.id, lastEvent.price)];
        }
        id := id + 1;
      }
      ListingsUpToProject(marketEvents, marketItems, id);
      marketItems := rows;
    }

    /** `updateStorage`: for each id below 32, set the owner and content-hash
        leaves from its metadata row and the price leaf from its listing. */
    method UpdateStorage()
      requires Valid()
      modifies ownerStorage, ipfsHashStorage, priceStorage
      ensures Valid()
      ensures ownerStorage.leafs == RebuildLeafs(old(ownerStorage.leafs), nftMetadata, OwnerCodec(foreign))
      ensures ipfsHashStorage.leafs == RebuildLeafs(old(ipfsHashStorage.leafs), nftMetadata, IpfsHashCodec(foreign))
      ensures priceStorage.leafs == RebuildLeafs(old(priceStorage.leafs), marketItems, PriceCodec())
    {
      var id := 0;
      while id < MAX_NFT_ITEM
        invariant 0 <= id <= MAX_NFT_ITEM && Valid()
        invariant ownerStorage.leafs == LeafsUpTo(old(ownerStorage.leafs), nftMetadata, OwnerCodec(foreign), id)
        invariant ipfsHashStorage.leafs == LeafsUpTo(old(ipfsHashStorage.leafs), nftMetadata, IpfsHashCodec(foreign), id)
        invariant priceStorage.leafs == LeafsUpTo(old(priceStorage.leafs), marketItems, PriceCodec(), id)
      {
        if id in nftMetadata {
          var row := nftMetadata[id];
          var _ := ownerStorage.UpdateLeaf(id, OwnerCodec(foreign)(row));
          var _ := ipfsHashStorage.UpdateLeaf(id, IpfsHashCodec(foreign)(row));
        }
        if id in marketItems {
          var _ := priceStorage.UpdateLeaf(id, PriceCodec()(marketItems[id]));
        }
        id := id + 1;
      }
      LeafsUpToRebuild(old(ownerStorage.leafs), nftMetadata, OwnerCodec(foreign), id);
      LeafsUpToRebuild(old(ipfsHashStorage.leafs), nftMetadata, IpfsHashCodec(foreign), id);
      LeafsUpToRebuild(old(priceStorage.leafs), marketItems, PriceCodec(), id);
    }
  }
}
