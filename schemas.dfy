/**
 * The database rows the backend keeps (src/schemas), and the decoder of the
 * `update-market-item` event payload. Action states are kept as field
 * values rather than their decimal text.
 */
module Schemas {
  import opened Primitives
  import Contract
  import Utilities

  /** A stored action (`NftAction`), keyed by `actionId`. */
  datatype NftActionRow = NftActionRow(
    actionId: nat,
    currentActionState: Field,
    previousActionState: Field,
    actions: seq<string>,
    id: nat,
    owner: PublicKey,
    ipfsHash: IpfsHash)

  /** A stored `update-market-item` event (`UpdateMarketItemEvent`), keyed by `eventId`. */
  datatype EventRow = EventRow(eventId: nat, id: nat, price: nat)

  /** A per-item metadata row (`NftMetadata`), keyed by `id`. */
  datatype NftMetadataRow = NftMetadataRow(id: nat, owner: PublicKey, ipfsHash: IpfsHash)

  /** A per-item listing row (`MarketItem` of the database), keyed by `id`. */
  datatype MarketItemRow = MarketItemRow(id: nat, price: nat)

  /** `getMarketItem`: the id is `Number` of entry 0 and the price `Number`
      of entry 1. */
  function GetMarketItem(number: string -> nat, eventData: seq<string>): (item: MarketItemRow)
    requires |eventData| >= 2
    ensures item.id == number(eventData[0]) && item.price == number(eventData[1])
  {
    MarketItemRow(number(eventData[0]), number(eventData[1]))
  }

  /** Entries after the second are ignored: payloads that agree on their first
      two entries decode alike. */
  lemma GetMarketItemPrefix(number: string -> nat, a: seq<string>, b: seq<string>)
    requires |a| >= 2 && |b| >= 2 && a[..2] == b[..2]
    ensures GetMarketItem(number, a) == GetMarketItem(number, b)
  {
    assert a[0] == a[..2][0] && a[1] == a[..2][1];
  }

  /** The fields of the on-chain `MarketItem` struct, in declaration order. */
  function MarketItemFields(item: Contract.MarketItem): (fs: seq<Field>)
    ensures |fs| == 2 && fs[0] == item.id && fs[1] == item.price
  {
    [item.id, item.price]
  }

  /** Decoding the text of an emitted `MarketItem`'s fields gives back its id
      and price, whenever `Number` reads back the decimal text of a field. */
  lemma MarketItemRoundTrip(number: string -> nat, text: Field -> string, item: Contract.MarketItem)
    requires forall x :: number(text(x)) == x
    ensures GetMarketItem(number, Utilities.TextsOf(text, MarketItemFields(item))) == MarketItemRow(item.id, item.price)
  {
  }
}
