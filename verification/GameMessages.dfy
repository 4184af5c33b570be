/** The envelope of a game message: a packed 20-byte header with the payload's length and CRC. */
module GameMessages {
  import opened CrcSpec
  import opened LittleEndian
  import opened GameCrc

  const NET_VERSION: u16 := 3
  const MESSAGE_HEADER_SIZE: nat := 20

  datatype MessageHeader = MessageHeader(
    kind: u16, version: u16, sequence: u32, frame: u32, payloadBytes: u32, payloadCrc32: bv32)

  datatype ParseError = Ok | TooSmall | BadVersion | SizeMismatch | CrcMismatch

  function HeaderBytes(h: MessageHeader): (r: seq<byte>)
    ensures |r| == MESSAGE_HEADER_SIZE
  {
    Encode(h.kind, 2) + Encode(h.version, 2) + Encode(h.sequence, 4) + Encode(h.frame, 4)
    + Encode(h.payloadBytes, 4) + EncodeWord(h.payloadCrc32)
  }

  lemma Widths()
    ensures Pow256(2) == 0x1_0000 && Pow256(4) == 0x1_0000_0000
  {
  }

  function ReadHeader(d: seq<byte>): MessageHeader
    requires |d| >= MESSAGE_HEADER_SIZE
  {
    Widths();
    MessageHeader(Field(d[0..2], 2), Field(d[2..4], 2), Field(d[4..8], 4), Field(d[8..12], 4),
                  Field(d[12..16], 4), DecodeWord(d[16..20]))
  }

  lemma ReadHeaderBytes(h: MessageHeader, rest: seq<byte>)
    ensures ReadHeader(HeaderBytes(h) + rest) == h
  {
    hide Encode, EncodeWord, Decode, DecodeWord, Pow256;
    var d := HeaderBytes(h) + rest;
    Widths();
    assert d[0..2] == Encode(h.kind, 2);
    assert d[2..4] == Encode(h.version, 2);
    assert d[4..8] == Encode(h.sequence, 4);
    assert d[8..12] == Encode(h.frame, 4);
    assert d[12..16] == Encode(h.payloadBytes, 4);
    assert d[16..20] == EncodeWord(h.payloadCrc32);
    DecodeEncode(h.kind, 2); DecodeEncode(h.version, 2); DecodeEncode(h.sequence, 4);
    DecodeEncode(h.frame, 4); DecodeEncode(h.payloadBytes, 4); DecodeEncodeWord(h.payloadCrc32);
  }

  lemma HeaderBytesRead(d: seq<byte>)
    requires |d| >= MESSAGE_HEADER_SIZE
    ensures HeaderBytes(ReadHeader(d)) == d[..MESSAGE_HEADER_SIZE]
  {
    hide Encode, EncodeWord, Decode, DecodeWord, Pow256;
    EncodeDecode(d[0..2]); EncodeDecode(d[2..4]); EncodeDecode(d[4..8]); EncodeDecode(d[8..12]);
    EncodeDecode(d[12..16]); EncodeDecodeWord(d[16..20]);
    assert d[..20] == d[0..2] + d[2..4] + d[4..8] + d[8..12] + d[12..16] + d[16..20];
  }

  function HeaderFor(kind: u16, sequence: u32, frame: u32, payload: seq<byte>): MessageHeader {
    MessageHeader(kind, NET_VERSION, sequence, frame, |payload| % 0x1_0000_0000,
                  if |payload| == 0 then 0 else Crc(payload))
  }

  function Message(kind: u16, sequence: u32, frame: u32, payload: seq<byte>): seq<byte> {
    HeaderBytes(HeaderFor(kind, sequence, frame, payload)) + payload
  }

  method BuildMessage(crcTable: CrcTable, kind: u16, sequence: u32, frame: u32, payload: seq<byte>)
    returns (out: seq<byte>)
    requires crcTable.Valid()
    modifies crcTable.table, crcTable`tableInit
    ensures crcTable.Valid()
    ensures out == Message(kind, sequence, frame, payload)
  {
    hide Crc, HeaderBytes, Filled;
    var header := MessageHeader(kind, NET_VERSION, sequence, frame, |payload| % 0x1_0000_0000, 0);
    if |payload| != 0 {
      var crc := crcTable.Crc32(payload);
      header := header.(payloadCrc32 := crc);
    }
    out := HeaderBytes(header);
    if |payload| != 0 {
      out := out + payload;
    }
  }

  /** What the parser answers, test by test. */
  function ParseOutcome(d: seq<byte>): ParseError {
    if |d| < MESSAGE_HEADER_SIZE then TooSmall else
    var h := ReadHeader(d);
    if h.version != NET_VERSION then BadVersion else
    if |d| != MESSAGE_HEADER_SIZE + h.payloadBytes then SizeMismatch else
    var expected: bv32 := if h.payloadBytes > 0 then Crc(d[MESSAGE_HEADER_SIZE..]) else 0;
    if expected != h.payloadCrc32 then CrcMismatch else Ok
  }

  method ParseHeaderDetailed(crcTable: CrcTable, data: seq<byte>) returns (error: ParseError, header: MessageHeader)
    requires crcTable.Valid()
    modifies crcTable.table, crcTable`tableInit
    ensures crcTable.Valid()
    ensures error == ParseOutcome(data)
    ensures error != TooSmall ==> |data| >= MESSAGE_HEADER_SIZE && header == ReadHeader(data)
  {
    hide Crc, HeaderBytes, Filled, ReadHeader;
    header := MessageHeader(0, NET_VERSION, 0, 0, 0, 0);
    if |data| < MESSAGE_HEADER_SIZE {
      return TooSmall, header;
    }
    header := ReadHeader(data);
    if header.version != NET_VERSION {
      return BadVersion, header;
    }
    var expectedSize := MESSAGE_HEADER_SIZE + header.payloadBytes;
    if |data| != expectedSize {
      return SizeMismatch, header;
    }
    if header.payloadBytes > 0 {
      var crc := crcTable.Crc32(data[MESSAGE_HEADER_SIZE..]);
      if crc != header.payloadCrc32 {
        return CrcMismatch, header;
      }
    } else {
      if header.payloadCrc32 != 0 {
        return CrcMismatch, header;
      }
    }
    error := Ok;
  }

  /** Every built message parses, to the fields it was built from, with the payload after the header. */
  lemma ParseOfBuilt(kind: u16, sequence: u32, frame: u32, payload: seq<byte>)
    requires |payload| < 0x1_0000_0000
    ensures var d := Message(kind, sequence, frame, payload);
            && ParseOutcome(d) == Ok
            && ReadHeader(d) == HeaderFor(kind, sequence, frame, payload)
            && d[MESSAGE_HEADER_SIZE..] == payload
  {
    hide Crc, HeaderBytes, ReadHeader;
    var h := HeaderFor(kind, sequence, frame, payload);
    ReadHeaderBytes(h, payload);
    assert (HeaderBytes(h) + payload)[MESSAGE_HEADER_SIZE..] == payload;
  }

  /** The parser answers Ok on exactly the byte strings BuildMessage can produce, and each of
      those is built from the header and payload it is parsed into. */
  lemma OkMeansBuilt(d: seq<byte>)
    ensures ParseOutcome(d) == Ok ==>
            && |d| >= MESSAGE_HEADER_SIZE
            && var (h, p) := (ReadHeader(d), d[MESSAGE_HEADER_SIZE..]);
               |p| < 0x1_0000_0000 && d == Message(h.kind, h.sequence, h.frame, p)
    ensures ParseOutcome(d) == Ok <==>
            exists kind, sequence, frame, p ::
              |p| < 0x1_0000_0000 && d == Message(kind, sequence, frame, p)
  {
    hide Crc, HeaderBytes, ReadHeader, Message;
    if ParseOutcome(d) == Ok {
      Rebuilt(d);
    }
    forall kind, sequence, frame, p | |p| < 0x1_0000_0000 && d == Message(kind, sequence, frame, p)
      ensures ParseOutcome(d) == Ok
    {
      ParseOfBuilt(kind, sequence, frame, p);
    }
  }

  lemma Rebuilt(d: seq<byte>)
    requires ParseOutcome(d) == Ok
    ensures |d| >= MESSAGE_HEADER_SIZE && |d| < MESSAGE_HEADER_SIZE + 0x1_0000_0000
    ensures var h := ReadHeader(d);
            d == Message(h.kind, h.sequence, h.frame, d[MESSAGE_HEADER_SIZE..])
  {
    hide Crc, HeaderBytes, ReadHeader;
    var h := ReadHeader(d);
    HeaderBytesRead(d);
    assert h == HeaderFor(h.kind, h.sequence, h.frame, d[MESSAGE_HEADER_SIZE..]);
    assert d == d[..MESSAGE_HEADER_SIZE] + d[MESSAGE_HEADER_SIZE..];
  }
}
