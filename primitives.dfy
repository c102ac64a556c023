/**
 * Shared vocabulary of the NFT backend: field elements, the identifiers the
 * database stores, the tree-size constants, and the record of foreign
 * primitives (o1js hashing, codecs and decoders) that the model treats as
 * uninterpreted functions supplied by the caller.
 */
module Primitives {

  /** A field element of the proof system. Tree nodes, roots and action
      states are outputs of the hash, which is uninterpreted and only ever
      compared for equality, so no reduction modulo the field's prime is
      modelled. */
  type Field = nat

  /** A public key, in the base58 text form in which the database stores owners. */
  type PublicKey = string

  /** A content hash, in the text form in which the database stores it. */
  type IpfsHash = string

  const UINT64_LIMIT: nat := 0x1_0000_0000_0000_0000

  /** o1js `UInt64`. */
  type UInt64 = x: nat | x < UINT64_LIMIT

  function Pow2(n: nat): (r: nat)
    ensures r >= 1
  {
    if n == 0 then 1 else 2 * Pow2(n - 1)
  }

  /** `NFT_TREE_HEIGHT` and `MAX_NFT_ITEM = 2 ** NFT_TREE_HEIGHT` of src/constants.ts. */
  const NFT_TREE_HEIGHT: nat := 5
  const MAX_NFT_ITEM: nat := Pow2(NFT_TREE_HEIGHT)

  datatype Option<T> = None | Some(value: T)

  /** The action the contract dispatches to its reducer (struct `Metadata`),
      also the shape `getNftMetadata` decodes an action payload into. */
  datatype Metadata = Metadata(id: nat, owner: PublicKey, ipfsHash: IpfsHash)

  /**
   * Everything the core calls but cannot see: the Poseidon 2-to-1 hash of the
   * Merkle trees, the owner and content-hash leaf codecs, the reducer's initial
   * action state, the action-payload decoder `getNftMetadata`, JavaScript's
   * `Number()` on a field's decimal text, and `IpfsHash.empty()`.
   */
  datatype Foreign = Foreign(
    hash: (Field, Field) -> Field,
    ownerLeaf: PublicKey -> Field,
    ipfsLeaf: IpfsHash -> Field,
    initialActionState: Field,
    decodeAction: seq<string> -> Metadata,
    number: string -> nat,
    emptyIpfsHash: IpfsHash)

  /** Idealised collision resistance of the tree hash: `unhash` recovers both
      inputs from the output. Satisfiable because `Field` is unbounded here
      (a pairing function has such an inverse). */
  ghost predicate CollisionFree(hash: (Field, Field) -> Field, unhash: Field -> (Field, Field))
  {
    forall a: Field, b: Field :: unhash(hash(a, b)) == (a, b)
  }
}
