/**
 * What one pass of `NftContractService.update` computes, as functions of the
 * database and the remote history: the two cursor-resumed appends
 * (`fetchActions`, `fetchEvents`), the two per-item projections
 * (`updateNftMetadata`, `updateMarketItem`) and the leaf rebuild
 * (`updateStorage`). The service's methods are proved to compute these.
 */
module Reconcile {
  import opened Primitives
  import opened Queries
  import opened Schemas
  import Storage

  /** One entry of the archive node's action list: the action state after
      it and its payloads (each a list of field texts). */
  datatype Action = Action(hash: Field, actions: seq<seq<string>>)

  /** One payload of an archive-node event entry. */
  datatype EventPayload = EventPayload(data: seq<string>)

  /** One entry of the archive node's event list. */
  datatype Event = Event(events: seq<EventPayload>)

  /** The backend reads `actions[0]` of every action. */
  predicate ActionsReadable(fetched: seq<Action>)
  {
    forall j | 0 <= j < |fetched| :: |fetched[j].actions| > 0
  }

  /** The backend reads `events[0].data[0]` and `[1]` of every event. */
  predicate EventsReadable(fetched: seq<Event>)
  {
    forall j | 0 <= j < |fetched| :: |fetched[j].events| > 0 && |fetched[j].events[0].data| >= 2
  }

  /** `array.slice(start)`: the entries from `start` on, none when `start`
      is past the end. */
  function Drop<T>(s: seq<T>, start: nat): (r: seq<T>)
    ensures |r| == if start <= |s| then |s| - start else 0
  {
    if start <= |s| then s[start..] else []
  }

  // ---------------------------------------------------------------------
  // fetchActions

  /** Where `fetchActions` resumes: the next `actionId` and the action state
      the next row chains from. */
  datatype Cursor = Cursor(next: nat, previous: Field)

  /** No stored action: start at 0 from the reducer's initial state; else
      one past the highest `actionId`, from that row's current state. */
  function ActionCursor(rows: map<nat, NftActionRow>, initial: Field): (c: Cursor)
    ensures rows == map[] ==> c == Cursor(0, initial)
    ensures rows != map[] ==> c.next - 1 in rows && (forall k | k in rows :: k < c.next)
                              && c.previous == rows[c.next - 1].currentActionState
  {
    if rows.Keys == {} then Cursor(0, initial)
    else
      var last := MaxOf(rows.Keys);
      Cursor(last + 1, rows[last].currentActionState)
  }

  /** The row stored for the j-th action of the remaining slice `actions`:
      its `actionId` is `c.next + j`, and it chains from the cursor's state
      (j = 0) or from the state after the previous action. */
  function ActionRow(foreign: Foreign, actions: seq<Action>, c: Cursor, j: nat): NftActionRow
    requires ActionsReadable(actions) && j < |actions|
  {
    var a := actions[j];
    var metadata := foreign.decodeAction(a.actions[0]);
    NftActionRow(c.next + j, a.hash, if j == 0 then c.previous else actions[j - 1].hash,
                 a.actions[0], metadata.id, metadata.owner, metadata.ipfsHash)
  }

  /** The stored rows after upserting the rows of the first `n` actions of
      the slice, one at a time. */
  function ActionsUpTo(foreign: Foreign, rows: map<nat, NftActionRow>, actions: seq<Action>, c: Cursor, n: nat)
    : map<nat, NftActionRow>
    requires ActionsReadable(actions) && n <= |actions|
  {
    if n == 0 then rows
    else ActionsUpTo(foreign, rows, actions, c, n - 1)[c.next + n - 1 := ActionRow(foreign, actions, c, n - 1)]
  }

  /** The action log after `fetchActions` against the remote list `fetched`:
      the rows of the remote actions past the cursor upserted one at a time. */
  function SyncActions(foreign: Foreign, rows: map<nat, NftActionRow>, fetched: seq<Action>): map<nat, NftActionRow>
    requires ActionsReadable(fetched)
  {
    var c := ActionCursor(rows, foreign.initialActionState);
    var actions := Drop(fetched, c.next);
    ActionsUpTo(foreign, rows, actions, c, |actions|)
  }

  /** Upserting the rows one at a time adds exactly the ids of the run and
      keeps every stored row outside it. */
  lemma {:induction false} ActionsUpToAll(foreign: Foreign, rows: map<nat, NftActionRow>, actions: seq<Action>, c: Cursor, n: nat)
    requires ActionsReadable(actions) && n <= |actions|
    ensures var r := ActionsUpTo(foreign, rows, actions, c, n);
            && (forall k :: k in r <==> k in rows || c.next <= k < c.next + n)
            && (forall k | k in rows && !(c.next <= k < c.next + n) :: r[k] == rows[k])
  {
    if n > 0 {
      ActionsUpToAll(foreign, rows, actions, c, n - 1);
    }
  }

  /** The row of slice entry j, once upserted, stays under id `c.next + j`. */
  lemma {:induction false} ActionsUpToRow(foreign: Foreign, rows: map<nat, NftActionRow>, actions: seq<Action>, c: Cursor, n: nat, j: nat)
    requires ActionsReadable(actions) && j < n <= |actions|
    ensures var r := ActionsUpTo(foreign, rows, actions, c, n);
            c.next + j in r && r[c.next + j] == ActionRow(foreign, actions, c, j)
  {
    if j < n - 1 {
      ActionsUpToRow(foreign, rows, actions, c, n - 1, j);
    }
  }

  /** Every row sits under its own `actionId`. */
  ghost predicate ActionsKeyed(rows: map<nat, NftActionRow>)
  {
    forall k | k in rows :: rows[k].actionId == k
  }

  /** The pass adds exactly the ids of the remote actions past the highest
      stored id (all of them, from 0, on an empty log). */
  lemma SyncActionsKeys(foreign: Foreign, rows: map<nat, NftActionRow>, fetched: seq<Action>)
    requires ActionsReadable(fetched)
    ensures var next := ActionCursor(rows, foreign.initialActionState).next;
            forall k :: k in SyncActions(foreign, rows, fetched) <==> k in rows || next <= k < |fetched|
  {
    var c := ActionCursor(rows, foreign.initialActionState);
    var actions := Drop(fetched, c.next);
    var last := if c.next <= |fetched| then |fetched| else c.next;
    assert c.next + |actions| == last;
    ActionsUpToAll(foreign, rows, actions, c, |actions|);
  }

  /** The row of remote action k past the cursor sits under `actionId` k and
      records the state after action k, the state it chains from (the
      cursor's for the first new row, the state after action k - 1 for the
      others) and the decoded payload of action k. */
  lemma SyncActionsAt(foreign: Foreign, rows: map<nat, NftActionRow>, fetched: seq<Action>, k: nat)
    requires ActionsReadable(fetched)
    requires ActionCursor(rows, foreign.initialActionState).next <= k < |fetched|
    ensures var r := SyncActions(foreign, rows, fetched);
            var c := ActionCursor(rows, foreign.initialActionState);
            var m := foreign.decodeAction(fetched[k].actions[0]);
            && k in r && r[k].actionId == k && r[k].currentActionState == fetched[k].hash
            && r[k].previousActionState == (if k == c.next then c.previous else fetched[k - 1].hash)
            && r[k].actions == fetched[k].actions[0]
            && r[k].id == m.id && r[k].owner == m.owner && r[k].ipfsHash == m.ipfsHash
  {
    var c := ActionCursor(rows, foreign.initialActionState);
    var actions := Drop(fetched, c.next);
    assert c.next + |actions| == |fetched|;
    var j := k - c.next;
    ActionsUpToRow(foreign, rows, actions, c, |actions|, j);
    assert actions[j] == fetched[k];
    if j > 0 {
      assert actions[j - 1] == fetched[k - 1];
    }
  }

  /** The stored rows are kept as they were. */
  lemma SyncActionsKeeps(foreign: Foreign, rows: map<nat, NftActionRow>, fetched: seq<Action>)
    requires ActionsReadable(fetched)
    ensures var r := SyncActions(foreign, rows, fetched);
            forall k | k in rows :: k in r && r[k] == rows[k]
  {
    var c := ActionCursor(rows, foreign.initialActionState);
    var actions := Drop(fetched, c.next);
    ActionsUpToAll(foreign, rows, actions, c, |actions|);
  }

  /** Chain continuity: every new row's previous state is the current state
      of the row with the preceding `actionId` (the initial state for id 0). */
  lemma SyncActionsChain(foreign: Foreign, rows: map<nat, NftActionRow>, fetched: seq<Action>, k: nat)
    requires ActionsReadable(fetched)
    requires ActionCursor(rows, foreign.initialActionState).next <= k < |fetched|
    ensures var r := SyncActions(foreign, rows, fetched);
            && k in r
            && (k == 0 ==> r[k].previousActionState == foreign.initialActionState)
            && (k > 0 ==> k - 1 in r && r[k].previousActionState == r[k - 1].currentActionState)
  {
    var c := ActionCursor(rows, foreign.initialActionState);
    SyncActionsAt(foreign, rows, fetched, k);
    if k == c.next {
      if k > 0 {
        SyncActionsKeeps(foreign, rows, fetched);
      }
    } else {
      SyncActionsAt(foreign, rows, fetched, k - 1);
    }
  }

  /** The rows the pass adds carry their own ids, so a keyed log stays keyed. */
  lemma SyncActionsKeyed(foreign: Foreign, rows: map<nat, NftActionRow>, fetched: seq<Action>)
    requires ActionsReadable(fetched) && ActionsKeyed(rows)
    ensures ActionsKeyed(SyncActions(foreign, rows, fetched))
  {
    var c := ActionCursor(rows, foreign.initialActionState);
    var r := SyncActions(foreign, rows, fetched);
    SyncActionsKeys(foreign, rows, fetched);
    SyncActionsKeeps(foreign, rows, fetched);
    forall k | k in r
      ensures r[k].actionId == k
    {
      if k !in rows {
        SyncActionsAt(foreign, rows, fetched, k);
      }
    }
  }

  /** A log holding ids 0 … n-1 afterwards holds ids 0 … max(n, |fetched|)-1. */
  lemma SyncActionsGapless(foreign: Foreign, rows: map<nat, NftActionRow>, fetched: seq<Action>, n: nat)
    requires ActionsReadable(fetched) && forall k :: k in rows <==> k < n
    ensures forall k :: k in SyncActions(foreign, rows, fetched) <==> k < if n < |fetched| then |fetched| else n
  {
    var c := ActionCursor(rows, foreign.initialActionState);
    SyncActionsKeys(foreign, rows, fetched);
    if n > 0 {
      assert n - 1 in rows;
      assert c.next == n;
    }
  }

  /** Re-running against the same remote list adds and changes nothing:
      the slice after the new cursor is empty. */
  lemma SyncActionsIdempotent(foreign: Foreign, rows: map<nat, NftActionRow>, fetched: seq<Action>)
    requires ActionsReadable(fetched)
    ensures var r := SyncActions(foreign, rows, fetched);
            SyncActions(foreign, r, fetched) == r
  {
    var c := ActionCursor(rows, foreign.initialActionState);
    var r := SyncActions(foreign, rows, fetched);
    SyncActionsKeys(foreign, rows, fetched);
    var c' := ActionCursor(r, foreign.initialActionState);
    if c.next < |fetched| {
      assert |fetched| - 1 in r;
      assert c'.next == |fetched|;
    } else {
      assert |Drop(fetched, c.next)| == 0;
      assert r == rows;
    }
    assert |Drop(fetched, c'.next)| == 0;
  }

  // ---------------------------------------------------------------------
  // fetchEvents

  /** No stored event: start at 0; else one past the highest `eventId`. */
  function EventCursor(rows: map<nat, EventRow>): (next: nat)
    ensures rows == map[] ==> next == 0
    ensures rows != map[] ==> next - 1 in rows && forall k | k in rows :: k < next
  {
    if rows.Keys == {} then 0 else MaxOf(rows.Keys) + 1
  }

  /** The row stored for the j-th event of the remaining slice `events`:
      `getMarketItem` of its first payload, under `eventId` `next + j`. */
  function EventRowOf(number: string -> nat, events: seq<Event>, next: nat, j: nat): EventRow
    requires EventsReadable(events) && j < |events|
  {
    var item := GetMarketItem(number, events[j].events[0].data);
    EventRow(next + j, item.id, item.price)
  }

  /** The stored rows after upserting the rows of the first `n` events of
      the slice, one at a time. */
  function EventsUpTo(number: string -> nat, rows: map<nat, EventRow>, events: seq<Event>, next: nat, n: nat)
    : map<nat, EventRow>
    requires EventsReadable(events) && n <= |events|
  {
    if n == 0 then rows
    else EventsUpTo(number, rows, events, next, n - 1)[next + n - 1 := EventRowOf(number, events, next, n - 1)]
  }

  /** The event log after `fetchEvents` against the remote list `fetched`:
      the rows of the remote events past the cursor upserted one at a time. */
  function SyncEvents(number: string -> nat, rows: map<nat, EventRow>, fetched: seq<Event>): map<nat, EventRow>
    requires EventsReadable(fetched)
  {
    var next := EventCursor(rows);
    var events := Drop(fetched, next);
    EventsUpTo(number, rows, events, next, |events|)
  }

  /** The row of slice entry j, once upserted, stays under id `next + j`. */
  lemma {:induction false} EventsUpToRow(number: string -> nat, rows: map<nat, EventRow>, events: seq<Event>, next: nat, n: nat, j: nat)
    requires EventsReadable(events) && j < n <= |events|
    ensures var r := EventsUpTo(number, rows, events, next, n);
            next + j in r && r[next + j] == EventRowOf(number, events, next, j)
  {
    if j < n - 1 {
      EventsUpToRow(number, rows, events, next, n - 1, j);
    }
  }

  /** Upserting the rows one at a time adds exactly the ids of the run and
      keeps every stored row outside it. */
  lemma {:induction false} EventsUpToAll(number: string -> nat, rows: map<nat, EventRow>, events: seq<Event>, next: nat, n: nat)
    requires EventsReadable(events) && n <= |events|
    ensures var r := EventsUpTo(number, rows, events, next, n);
            && (forall k :: k in r <==> k in rows || next <= k < next + n)
            && (forall k | k in rows && !(next <= k < next + n) :: r[k] == rows[k])
  {
    if n > 0 {
      EventsUpToAll(number, rows, events, next, n - 1);
    }
  }

  /** The pass adds exactly the ids of the remote events past the highest
      stored id (all of them, from 0, on an empty log). */
  lemma SyncEventsKeys(number: string -> nat, rows: map<nat, EventRow>, fetched: seq<Event>)
    requires EventsReadable(fetched)
    ensures var next := EventCursor(rows);
            forall k :: k in SyncEvents(number, rows, fetched) <==> k in rows || next <= k < |fetched|
  {
    var next := EventCursor(rows);
    var events := Drop(fetched, next);
    var last := if next <= |fetched| then |fetched| else next;
    assert next + |events| == last;
    EventsUpToAll(number, rows, events, next, |events|);
  }

  /** The row of remote event k past the cursor sits under `eventId` k and
      holds `getMarketItem` of the first payload of event k. */
  lemma SyncEventsAt(number: string -> nat, rows: map<nat, EventRow>, fetched: seq<Event>, k: nat)
    requires EventsReadable(fetched) && EventCursor(rows) <= k < |fetched|
    ensures var r := SyncEvents(number, rows, fetched);
            && k in r && r[k].eventId == k
            && MarketItemRow(r[k].id, r[k].price) == GetMarketItem(number, fetched[k].events[0].data)
  {
    var next := EventCursor(rows);
    var events := Drop(fetched, next);
    assert next + |events| == |fetched|;
    var j := k - next;
    EventsUpToRow(number, rows, events, next, |events|, j);
    assert events[j] == fetched[k];
  }

  /** The stored rows are kept as they were. */
  lemma SyncEventsKeeps(number: string -> nat, rows: map<nat, EventRow>, fetched: seq<Event>)
    requires EventsReadable(fetched)
    ensures var r := SyncEvents(number, rows, fetched);
            forall k | k in rows :: k in r && r[k] == rows[k]
  {
    var next := EventCursor(rows);
    var events := Drop(fetched, next);
    EventsUpToAll(number, rows, events, next, |events|);
  }

  /** Re-running against the same remote list adds and changes nothing:
      the slice after the new cursor is empty. */
  lemma SyncEventsIdempotent(number: string -> nat, rows: map<nat, EventRow>, fetched: seq<Event>)
    requires EventsReadable(fetched)
    ensures var r := SyncEvents(number, rows, fetched);
            SyncEvents(number, r, fetched) == r
  {
    var next := EventCursor(rows);
    var r := SyncEvents(number, rows, fetched);
    SyncEventsKeys(number, rows, fetched);
    if next < |fetched| {
      assert |fetched| - 1 in r;
      assert EventCursor(r) == |fetched|;
    } else {
      assert |Drop(fetched, next)| == 0;
      assert r == rows;
    }
    assert |Drop(fetched, EventCursor(r))| == 0;
  }

  // ---------------------------------------------------------------------
  // updateNftMetadata

  /** The `actionId`s of the stored actions about item `id`. */
  function ActionIdsOf(rows: map<nat, NftActionRow>, id: nat): set<nat>
  {
    set k | k in rows && rows[k].id == id
  }

  /** The item ids below `bound` that some stored action is about. */
  function ActiveItems(rows: map<nat, NftActionRow>, bound: nat): set<nat>
  {
    set id: nat | id < bound && ActionIdsOf(rows, id) != {}
  }

  /** The metadata row of an item with actions: owner from its last action,
      content hash from its first. */
  function MetadataOf(rows: map<nat, NftActionRow>, id: nat): NftMetadataRow
    requires ActionIdsOf(rows, id) != {}
  {
    var ids := ActionIdsOf(rows, id);
    NftMetadataRow(id, rows[MaxOf(ids)].owner, rows[MinOf(ids)].ipfsHash)
  }

  /** The metadata after `updateNftMetadata` has visited the ids below
      `bound`, one at a time. */
  function MetadataUpTo(rows: map<nat, NftActionRow>, meta: map<nat, NftMetadataRow>, bound: nat)
    : map<nat, NftMetadataRow>
    decreases bound
  {
    if bound == 0 then meta
    else
      var before := MetadataUpTo(rows, meta, bound - 1);
      if ActionIdsOf(rows, bound - 1) == {} then before else before[bound - 1 := MetadataOf(rows, bound - 1)]
  }

  /** The metadata after `updateNftMetadata`: every item below 32 with
      actions gets its projected row, every other row is kept. */
  function ProjectMetadata(rows: map<nat, NftActionRow>, meta: map<nat, NftMetadataRow>): map<nat, NftMetadataRow>
  {
    var active := ActiveItems(rows, MAX_NFT_ITEM);
    map id | id in meta.Keys + active :: if id in active then MetadataOf(rows, id) else meta[id]
  }

  /** Visiting the ids one at a time upserts exactly the active ones. */
  lemma {:induction false} MetadataUpToAll(rows: map<nat, NftActionRow>, meta: map<nat, NftMetadataRow>, bound: nat)
    ensures var r := MetadataUpTo(rows, meta, bound);
            var active := ActiveItems(rows, bound);
            forall id :: (id in r <==> id in meta || id in active)
                         && (id in r ==> r[id] == if id in active then MetadataOf(rows, id) else meta[id])
    decreases bound
  {
    if bound > 0 {
      MetadataUpToAll(rows, meta, bound - 1);
    }
  }

  /** `updateNftMetadata` visits exactly the ids below 32. */
  lemma MetadataUpToProject(rows: map<nat, NftActionRow>, meta: map<nat, NftMetadataRow>, bound: nat)
    requires bound == MAX_NFT_ITEM
    ensures MetadataUpTo(rows, meta, bound) == ProjectMetadata(rows, meta)
  {
    MetadataUpToAll(rows, meta, bound);
  }

  /** An item below 32 with actions gets the owner of its highest-`actionId`
      action and the content hash of its lowest-`actionId` action. */
  lemma ProjectedMetadata(rows: map<nat, NftActionRow>, meta: map<nat, NftMetadataRow>, id: nat, first: nat, last: nat)
    requires id < MAX_NFT_ITEM
    requires first in rows && rows[first].id == id && last in rows && rows[last].id == id
    requires forall k | k in rows && rows[k].id == id :: first <= k <= last
    ensures var r := ProjectMetadata(rows, meta);
            id in r && r[id] == NftMetadataRow(id, rows[last].owner, rows[first].ipfsHash)
  {
    var ids := ActionIdsOf(rows, id);
    assert first in ids && last in ids;
    assert id in ActiveItems(rows, MAX_NFT_ITEM);
    assert MaxOf(ids) == last && MinOf(ids) == first;
  }

  /** Items at or past 32, and items without actions, keep their row (or
      its absence). */
  lemma UntouchedMetadata(rows: map<nat, NftActionRow>, meta: map<nat, NftMetadataRow>, id: nat)
    requires id >= MAX_NFT_ITEM || forall k | k in rows :: rows[k].id != id
    ensures var r := ProjectMetadata(rows, meta);
            (id in r <==> id in meta) && (id in meta ==> r[id] == meta[id])
  {
    assert id !in ActiveItems(rows, MAX_NFT_ITEM) by {
      if id < MAX_NFT_ITEM {
        assert ActionIdsOf(rows, id) == {};
      }
    }
  }

  /** Projecting twice from the same actions gives the same rows. */
  lemma ProjectMetadataIdempotent(rows: map<nat, NftActionRow>, meta: map<nat, NftMetadataRow>)
    ensures ProjectMetadata(rows, ProjectMetadata(rows, meta)) == ProjectMetadata(rows, meta)
  {
  }

  // ---------------------------------------------------------------------
  // updateMarketItem

  /** The `eventId`s of the stored events about item `id`. */
  function EventIdsOf(rows: map<nat, EventRow>, id: nat): set<nat>
  {
    set k | k in rows && rows[k].id == id
  }

  /** The item ids below `bound` that some stored event is about. */
  function ListedItems(rows: map<nat, EventRow>, bound: nat): set<nat>
  {
    set id: nat | id < bound && EventIdsOf(rows, id) != {}
  }

  /** The listing of an item with events: id and price of its last event. */
  function ListingOf(rows: map<nat, EventRow>, id: nat): MarketItemRow
    requires EventIdsOf(rows, id) != {}
  {
    var last := rows[MaxOf(EventIdsOf(rows, id))];
    MarketItemRow(last.id, last.price)
  }

  /** The listings after `updateMarketItem` has visited the ids below
      `bound`, one at a time. */
  function ListingsUpTo(rows: map<nat, EventRow>, items: map<nat, MarketItemRow>, bound: nat)
    : map<nat, MarketItemRow>
    decreases bound
  {
    if bound == 0 then items
    else
      var before := ListingsUpTo(rows, items, bound - 1);
      if EventIdsOf(rows, bound - 1) == {} then before else before[bound - 1 := ListingOf(rows, bound - 1)]
  }

  /** The listings after `updateMarketItem`: every item below 32 with events
      gets its last listing, every other row is kept. */
  function ProjectListings(rows: map<nat, EventRow>, items: map<nat, MarketItemRow>): map<nat, MarketItemRow>
  {
    var listed := ListedItems(rows, MAX_NFT_ITEM);
    map id | id in items.Keys + listed :: if id in listed then ListingOf(rows, id) else items[id]
  }

  /** Visiting the ids one at a time upserts exactly the listed ones. */
  lemma {:induction false} ListingsUpToAll(rows: map<nat, EventRow>, items: map<nat, MarketItemRow>, bound: nat)
    ensures var r := ListingsUpTo(rows, items, bound);
            var listed := ListedItems(rows, bound);
            forall id :: (id in r <==> id in items || id in listed)
                         && (id in r ==> r[id] == if id in listed then ListingOf(rows, id) else items[id])
    decreases bound
  {
    if bound > 0 {
      ListingsUpToAll(rows, items, bound - 1);
    }
  }

  /** `updateMarketItem` visits exactly the ids below 32. */
  lemma ListingsUpToProject(rows: map<nat, EventRow>, items: map<nat, MarketItemRow>, bound: nat)
    requires bound == MAX_NFT_ITEM
    ensures ListingsUpTo(rows, items, bound) == ProjectListings(rows, items)
  {
    ListingsUpToAll(rows, items, bound);
  }

  /** An item below 32 with events is listed at the price of its
      highest-`eventId` event. */
  lemma ProjectedListing(rows: map<nat, EventRow>, items: map<nat, MarketItemRow>, id: nat, last: nat)
    requires id < MAX_NFT_ITEM
    requires last in rows && rows[last].id == id
    requires forall k | k in rows && rows[k].id == id :: k <= last
    ensures var r := ProjectListings(rows, items);
            id in r && r[id] == MarketItemRow(id, rows[last].price)
  {
    var ids := EventIdsOf(rows, id);
    assert last in ids;
    assert id in ListedItems(rows, MAX_NFT_ITEM);
    assert MaxOf(ids) == last;
  }

  /** Items at or past 32, and items without events, keep their row (or its
      absence). */
  lemma UntouchedListing(rows: map<nat, EventRow>, items: map<nat, MarketItemRow>, id: nat)
    requires id >= MAX_NFT_ITEM || forall k | k in rows :: rows[k].id != id
    ensures var r := ProjectListings(rows, items);
            (id in r <==> id in items) && (id in items ==> r[id] == items[id])
  {
    assert id !in ListedItems(rows, MAX_NFT_ITEM) by {
      if id < MAX_NFT_ITEM {
        assert EventIdsOf(rows, id) == {};
      }
    }
  }

  /** Projecting twice from the same events gives the same rows. */
  lemma ProjectListingsIdempotent(rows: map<nat, EventRow>, items: map<nat, MarketItemRow>)
    ensures ProjectListings(rows, ProjectListings(rows, items)) == ProjectListings(rows, items)
  {
  }

  // ---------------------------------------------------------------------
  // updateStorage

  /** A storage's leaf record after `updateStorage` has visited the ids below
      `bound`: each id with a row gets the codec of that row. */
  function LeafsUpTo<R>(leafs: map<nat, Field>, rows: map<nat, R>, codec: R -> Field, bound: nat): map<nat, Field>
    decreases bound
  {
    if bound == 0 then leafs
    else
      var before := LeafsUpTo(leafs, rows, codec, bound - 1);
      if bound - 1 in rows then before[bound - 1 := codec(rows[bound - 1])] else before
  }

  /** The leaf record after `updateStorage`, from the rows keyed by item id. */
  function RebuildLeafs<R>(leafs: map<nat, Field>, rows: map<nat, R>, codec: R -> Field): map<nat, Field>
  {
    var touched := set k | k in rows && k < MAX_NFT_ITEM;
    map i | i in leafs.Keys + touched :: if i in touched then codec(rows[i]) else leafs[i]
  }

  /** Visiting the ids below `bound` one by one gives the closed form. */
  lemma {:induction false} LeafsUpToAll<R>(leafs: map<nat, Field>, rows: map<nat, R>, codec: R -> Field, bound: nat)
    ensures var r := LeafsUpTo(leafs, rows, codec, bound);
            forall i :: (i in r <==> i in leafs || (i in rows && i < bound))
                        && (i in r ==> r[i] == if i in rows && i < bound then codec(rows[i]) else leafs[i])
    decreases bound
  {
    if bound > 0 {
      LeafsUpToAll(leafs, rows, codec, bound - 1);
    }
  }

  /** `updateStorage` visits exactly the ids below 32. */
  lemma LeafsUpToRebuild<R>(leafs: map<nat, Field>, rows: map<nat, R>, codec: R -> Field, bound: nat)
    requires bound == MAX_NFT_ITEM
    ensures LeafsUpTo(leafs, rows, codec, bound) == RebuildLeafs(leafs, rows, codec)
  {
    LeafsUpToAll(leafs, rows, codec, bound);
  }

  /** The leaf at an id below 32 is set exactly when a row exists, to the
      codec of the row; every other index, 32 and beyond included, keeps its
      leaf (or its absence). */
  lemma RebuiltLeaf<R>(leafs: map<nat, Field>, rows: map<nat, R>, codec: R -> Field, i: nat)
    ensures var r := RebuildLeafs(leafs, rows, codec);
            && (i < MAX_NFT_ITEM && i in rows ==> i in r && r[i] == codec(rows[i]))
            && (!(i < MAX_NFT_ITEM && i in rows) ==> (i in r <==> i in leafs) && (i in leafs ==> r[i] == leafs[i]))
  {
  }

  /** Rebuilding twice from the same rows gives the same record. */
  lemma RebuildLeafsIdempotent<R>(leafs: map<nat, Field>, rows: map<nat, R>, codec: R -> Field)
    ensures RebuildLeafs(RebuildLeafs(leafs, rows, codec), rows, codec) == RebuildLeafs(leafs, rows, codec)
  {
  }

  /** `OwnerStorage.calculateLeaf(PublicKey.fromBase58(owner))` of a metadata row. */
  function OwnerCodec(foreign: Foreign): NftMetadataRow -> Field
  {
    (row: NftMetadataRow) => foreign.ownerLeaf(row.owner)
  }

  /** `IpfsHashStorage.calculateLeaf(IpfsHash.fromString(ipfsHash))` of a metadata row. */
  function IpfsHashCodec(foreign: Foreign): NftMetadataRow -> Field
  {
    (row: NftMetadataRow) => foreign.ipfsLeaf(row.ipfsHash)
  }

  /** `PriceStorage.calculateLeaf(new UInt64(price))` of a listing row. */
  function PriceCodec(): MarketItemRow -> Field
  {
    (row: MarketItemRow) => Storage.PriceLeaf(row.price)
  }

  // ---------------------------------------------------------------------
  // update

  /** Everything one pass reads and writes: the four collections and the
      three storages' leaf records. */
  datatype Db = Db(
    actions: map<nat, NftActionRow>,
    events: map<nat, EventRow>,
    metadata: map<nat, NftMetadataRow>,
    items: map<nat, MarketItemRow>,
    ownerLeafs: map<nat, Field>,
    ipfsHashLeafs: map<nat, Field>,
    priceLeafs: map<nat, Field>)

  /** `update`: fetch actions, fetch events, project metadata, project
      listings, rebuild the leaves, each phase reading what the earlier ones
      wrote. */
  function Reconciled(foreign: Foreign, db: Db, fetchedActions: seq<Action>, fetchedEvents: seq<Event>): Db
    requires ActionsReadable(fetchedActions) && EventsReadable(fetchedEvents)
  {
    var actions := SyncActions(foreign, db.actions, fetchedActions);
    var events := SyncEvents(foreign.number, db.events, fetchedEvents);
    var metadata := ProjectMetadata(actions, db.metadata);
    var items := ProjectListings(events, db.items);
    Db(actions, events, metadata, items,
       RebuildLeafs(db.ownerLeafs, metadata, OwnerCodec(foreign)),
       RebuildLeafs(db.ipfsHashLeafs, metadata, IpfsHashCodec(foreign)),
       RebuildLeafs(db.priceLeafs, items, PriceCodec()))
  }

  /** The phases chained one after another give `Reconciled`. */
  lemma ReconciledFrom(foreign: Foreign, db: Db, fetchedActions: seq<Action>, fetchedEvents: seq<Event>, after: Db)
    requires ActionsReadable(fetchedActions) && EventsReadable(fetchedEvents)
    requires after.actions == SyncActions(foreign, db.actions, fetchedActions)
    requires after.events == SyncEvents(foreign.number, db.events, fetchedEvents)
    requires after.metadata == ProjectMetadata(after.actions, db.metadata)
    requires after.items == ProjectListings(after.events, db.items)
    requires after.ownerLeafs == RebuildLeafs(db.ownerLeafs, after.metadata, OwnerCodec(foreign))
    requires after.ipfsHashLeafs == RebuildLeafs(db.ipfsHashLeafs, after.metadata, IpfsHashCodec(foreign))
    requires after.priceLeafs == RebuildLeafs(db.priceLeafs, after.items, PriceCodec())
    ensures Reconciled(foreign, db, fetchedActions, fetchedEvents) == after
  {
  }

  /** A second pass against the same remote history changes nothing. */
  lemma ReconciledIdempotent(foreign: Foreign, db: Db, fetchedActions: seq<Action>, fetchedEvents: seq<Event>)
    requires ActionsReadable(fetchedActions) && EventsReadable(fetchedEvents)
    ensures var once := Reconciled(foreign, db, fetchedActions, fetchedEvents);
            Reconciled(foreign, once, fetchedActions, fetchedEvents) == once
  {
    var once := Reconciled(foreign, db, fetchedActions, fetchedEvents);
    SyncActionsIdempotent(foreign, db.actions, fetchedActions);
    SyncEventsIdempotent(foreign.number, db.events, fetchedEvents);
    ProjectMetadataIdempotent(once.actions, db.metadata);
    ProjectListingsIdempotent(once.events, db.items);
    RebuildLeafsIdempotent(db.ownerLeafs, once.metadata, OwnerCodec(foreign));
    RebuildLeafsIdempotent(db.ipfsHashLeafs, once.metadata, IpfsHashCodec(foreign));
    RebuildLeafsIdempotent(db.priceLeafs, once.items, PriceCodec());
  }
}
