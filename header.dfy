/** `Header::new` in src/header.rs: the page size alone, from bytes 16 and 17. */
module Headers {
  import opened Bytes
  import opened Errors
  import opened DbHeaders

  /** `Header { page_size }`. */
  datatype Header = Header(pageSize: nat)

  /** `Header::new(data)`; indexing `data[16]` and `data[17]` panics on shorter input. */
  function NewHeader(data: seq<byte>): (h: Header)
    requires |data| >= 18
    ensures h.pageSize == BeUint(data[16..18]) && h.pageSize < 65536
  {
    assert data[16..18] == [data[16], data[17]];
    Header(U16(data[16], data[17]))
  }

  /** The page size depends on bytes 16 and 17 and on nothing else. */
  lemma NewHeaderLocal(data: seq<byte>, other: seq<byte>)
    requires |data| >= 18 && |other| >= 18
    requires data[16] == other[16] && data[17] == other[17]
    ensures NewHeader(data) == NewHeader(other)
  {
  }

  /** It reads back the page size written big-endian at bytes 16 and 17. */
  lemma NewHeaderRoundTrip(ps: nat, front: seq<byte>, rest: seq<byte>)
    requires ps < 65536 && |front| == 16
    ensures NewHeader(front + BeBytes(ps, 2) + rest).pageSize == ps
  {
    var d := front + BeBytes(ps, 2) + rest;
    assert d[16..18] == BeBytes(ps, 2);
    BeUint16RoundTrip(ps);
  }

  /** It agrees with the page size `DbHeader::new` reads from the same bytes. */
  lemma NewHeaderAgreesWithDbHeader(data: seq<byte>)
    requires NewDbHeader(data).Ok?
    ensures |data| >= 18 && NewHeader(data).pageSize == NewDbHeader(data).value.pageSize
  {
  }
}
