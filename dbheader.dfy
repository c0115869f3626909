/**
 * The database file header (section 1.3 of the SQLite database file format)
 * as `DbHeader::new` in src/database.rs reads it: the 16-byte header string
 * and the big-endian page size at offsets 16 and 17.
 */
module DbHeaders {
  import opened Bytes
  import opened Errors
  import opened Utf8

  /** `DbHeader { header_string, page_size }`; the string is kept as its UTF-8 bytes. */
  datatype DbHeader = DbHeader(headerString: seq<byte>, pageSize: nat)

  /** The magic string "SQLite format 3\0" that `read_file` insists on. */
  const Magic: seq<byte> := [0x53, 0x51, 0x4C, 0x69, 0x74, 0x65, 0x20, 0x66, 0x6F, 0x72, 0x6D, 0x61, 0x74, 0x20, 0x33, 0x00]

  /**
   * `DbHeader::new(header)`: bytes 0..16 must be UTF-8; the page size is the
   * big-endian `u16` at bytes 16 and 17. Slicing or indexing past the end of
   * `header` is a panic of the source (`Panic`); the slice of the first
   * 16 bytes is checked before the page-size bytes are read.
   */
  function NewDbHeader(header: seq<byte>): (r: Result<DbHeader>)
    ensures r.Ok? <==> |header| >= 18 && ValidUtf8(header[..16])
    ensures r.Err? ==> r.error == (if 16 <= |header| && !ValidUtf8(header[..16]) then InvalidUtf8 else Panic)
    ensures r.Ok? ==> r.value.headerString == header[..16]
                      && r.value.pageSize == BeUint(header[16..18]) && r.value.pageSize < 65536
  {
    if |header| < 16 then Err(Panic)
    else if !ValidUtf8(header[..16]) then Err(InvalidUtf8)
    else if |header| < 18 then Err(Panic)
    else
      assert header[16..18] == [header[16], header[17]];
      Ok(DbHeader(header[..16], U16(header[16], header[17])))
  }

  /** The magic string is itself well-formed UTF-8. */
  lemma MagicIsValid()
    ensures |Magic| == 16 && ValidUtf8(Magic)
  {
    AsciiIsValid(Magic);
  }

  /**
   * A header that starts with 16 bytes of well-formed UTF-8 and holds the page
   * size `ps` big-endian at bytes 16 and 17 is read as exactly those.
   */
  lemma NewDbHeaderOf(front: seq<byte>, ps: nat, rest: seq<byte>)
    requires |front| == 16 && ValidUtf8(front) && ps < 65536
    ensures NewDbHeader(front + BeBytes(ps, 2) + rest) == Ok(DbHeader(front, ps))
  {
    var h := front + BeBytes(ps, 2) + rest;
    assert h[..16] == front;
    assert h[16..18] == BeBytes(ps, 2);
    BeUint16RoundTrip(ps);
  }

  /** In particular a file that starts with the magic string. */
  lemma NewDbHeaderOfMagic(ps: nat, rest: seq<byte>)
    requires ps < 65536
    ensures NewDbHeader(Magic + BeBytes(ps, 2) + rest) == Ok(DbHeader(Magic, ps))
  {
    MagicIsValid();
    NewDbHeaderOf(Magic, ps, rest);
  }
}
