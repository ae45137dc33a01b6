/** What a pushed item decodes to, seen from the row: the form a client sends a row it holds in. */
module SyncWire {
  import opened Wrappers
  import opened Octets
  import opened SyncModel

  function EncodeOptionalBinary(field: Option<Bytes>): WireField {
    match field
    case None => Absent
    case Some(bytes) => Present(bytes)
  }

  /** The item as it goes over the wire, its revision as the base of the push. */
  function ItemOnWire(row: Row): PushItem {
    var it := row.item;
    PushItem(row.itemId, it.kind, it.rev, it.updatedAt, it.deleted,
             EncodeOptionalBinary(it.nonce), EncodeOptionalBinary(it.ciphertext), it.blobRefs)
  }

  /** A row may go without nonce and ciphertext only if it is a tombstone. */
  predicate Complete(row: Row) {
    && row.itemId != "" && row.item.kind != ""
    && (row.item.deleted || (row.item.nonce.Some? && row.item.ciphertext.Some?))
  }

  /** Decoding and encoding undo each other: an item decodes to a row if and only if it is that row on the wire. */
  lemma DecodesIff(device: DeviceId, dto: PushItem, row: Row)
    ensures DecodePushItem(device, dto) == Ok(row) <==>
            Complete(row) && row.item.deviceId == device && dto == ItemOnWire(row)
  {
    if DecodePushItem(device, dto) == Ok(row) {
      assert dto.nonce == EncodeOptionalBinary(row.item.nonce);
      assert dto.ciphertext == EncodeOptionalBinary(row.item.ciphertext);
    }
  }
}
