/**
 * Projection of decoded ERC-721 `Transfer` events of the tracked contract into
 * transfer records (`map_transfers`).
 */
module Erc721 {
  import opened Encoding

  /**
   * A `Transfer(from, to, tokenId)` event already matched and decoded, with the
   * hash of the transaction whose receipt carries it and the log's index
   * within the block.
   */
  datatype TransferEvent = TransferEvent(
    from: Bytes,
    to: Bytes,
    tokenId: int,
    trxHash: Bytes,
    blockIndex: u32)

  /** The emitted transfer record. */
  datatype Transfer = Transfer(
    trxHash: Bytes,
    from: Bytes,
    to: Bytes,
    tokenId: u64,
    ordinal: u64)

  /**
   * One record per event, in event order. `toU64` is the library's narrowing of
   * the on-chain token id; the log index is widened to 64 bits as the ordinal.
   */
  function MapTransfers(events: seq<TransferEvent>, toU64: int -> u64): (r: seq<Transfer>)
    ensures |r| == |events|
    ensures forall i :: 0 <= i < |r| ==>
      && r[i].trxHash == events[i].trxHash
      && r[i].from == events[i].from
      && r[i].to == events[i].to
      && r[i].tokenId == toU64(events[i].tokenId)
      && r[i].ordinal as int == events[i].blockIndex as int
  {
    if events == [] then []
    else
      var e := events[0];
      [Transfer(e.trxHash, e.from, e.to, toU64(e.tokenId), e.blockIndex as int as u64)]
      + MapTransfers(events[1..], toU64)
  }
}
