/** The datagram format of the UDP transport: a packed 47-byte header carrying two CRCs,
    followed by the fragment. */
module UdpPacket {
  import opened CrcSpec
  import opened LittleEndian
  import UdpCommon

  const UDP_MAGIC: u32 := 0x534E_4B55
  const UDP_VERSION: u16 := 2
  const HEADER_SIZE: nat := 47

  const HANDSHAKE_HELLO: byte := 1
  const HANDSHAKE_WELCOME: byte := 2
  const DATA_FRAGMENT: byte := 10

  /** A received type field may hold any byte. */
  datatype PacketHeader = PacketHeader(
    magic: u32, version: u16, kind: byte, sessionId: u64, messageId: u32,
    fragmentIndex: u16, fragmentCount: u16, totalSize: u32, payloadSize: u32,
    fragmentOffset: u32, messageCrc: bv32, headerCrc: bv32, payloadCrc: bv32)

  /** The header a sender starts from. */
  const DEFAULT_HEADER := PacketHeader(UDP_MAGIC, UDP_VERSION, DATA_FRAGMENT, 0, 0, 0, 0, 0, 0, 0, 0, 0, 0)

  datatype RejectReason =
    None | TooSmall | BadMagicVersion | SizeMismatch | HeaderCrcMismatch | PayloadCrcMismatch | InvalidFragmentFields

  datatype ParsedPacket = ParsedPacket(header: PacketHeader, payload: seq<byte>, ok: bool, reject: RejectReason)

  // ----- The header as bytes -----

  function AddressBytes(h: PacketHeader): (r: seq<byte>)
    ensures |r| == 19
  {
    Encode(h.magic, 4) + Encode(h.version, 2) + [h.kind] + Encode(h.sessionId, 8) + Encode(h.messageId, 4)
  }

  function FragmentBytes(h: PacketHeader): (r: seq<byte>)
    ensures |r| == 16
  {
    Encode(h.fragmentIndex, 2) + Encode(h.fragmentCount, 2) + Encode(h.totalSize, 4) + Encode(h.payloadSize, 4)
    + Encode(h.fragmentOffset, 4)
  }

  function CheckBytes(h: PacketHeader): (r: seq<byte>)
    ensures |r| == 12
  {
    EncodeWord(h.messageCrc) + EncodeWord(h.headerCrc) + EncodeWord(h.payloadCrc)
  }

  function HeaderBytes(h: PacketHeader): (r: seq<byte>)
    ensures |r| == HEADER_SIZE
  {
    AddressBytes(h) + FragmentBytes(h) + CheckBytes(h)
  }

  lemma FieldWidths()
    ensures Pow256(2) == 0x1_0000 && Pow256(4) == 0x1_0000_0000 && Pow256(8) == 0x1_0000_0000_0000_0000
  {
  }

  function ReadHeader(d: seq<byte>): PacketHeader
    requires |d| >= HEADER_SIZE
  {
    FieldWidths();
    PacketHeader(
      Field(d[0..4], 4), Field(d[4..6], 2), d[6], Field(d[7..15], 8), Field(d[15..19], 4),
      Field(d[19..21], 2), Field(d[21..23], 2), Field(d[23..27], 4), Field(d[27..31], 4),
      Field(d[31..35], 4), DecodeWord(d[35..39]), DecodeWord(d[39..43]), DecodeWord(d[43..47]))
  }

  lemma AddressFields(h: PacketHeader, d: seq<byte>)
    requires d == AddressBytes(h)
    ensures d[0..4] == Encode(h.magic, 4) && d[4..6] == Encode(h.version, 2) && d[6] == h.kind
    ensures d[7..15] == Encode(h.sessionId, 8) && d[15..19] == Encode(h.messageId, 4)
  {
  }

  lemma FragmentFields(h: PacketHeader, d: seq<byte>)
    requires d == FragmentBytes(h)
    ensures d[0..2] == Encode(h.fragmentIndex, 2) && d[2..4] == Encode(h.fragmentCount, 2)
    ensures d[4..8] == Encode(h.totalSize, 4) && d[8..12] == Encode(h.payloadSize, 4)
    ensures d[12..16] == Encode(h.fragmentOffset, 4)
  {
  }

  lemma CheckFields(h: PacketHeader, d: seq<byte>)
    requires d == CheckBytes(h)
    ensures d[0..4] == EncodeWord(h.messageCrc) && d[4..8] == EncodeWord(h.headerCrc)
    ensures d[8..12] == EncodeWord(h.payloadCrc)
  {
  }

  lemma ReadHeaderBytes(h: PacketHeader, rest: seq<byte>)
    ensures ReadHeader(HeaderBytes(h) + rest) == h
  {
    hide Encode, EncodeWord, Decode, DecodeWord, AddressBytes, FragmentBytes, CheckBytes, Pow256;
    var a, f, c := AddressBytes(h), FragmentBytes(h), CheckBytes(h);
    var d := HeaderBytes(h) + rest;
    AddressFields(h, a);
    FragmentFields(h, f);
    CheckFields(h, c);
    FieldWidths();
    assert d[0..4] == a[0..4] && d[4..6] == a[4..6] && d[7..15] == a[7..15] && d[15..19] == a[15..19];
    assert d[19..21] == f[0..2] && d[21..23] == f[2..4] && d[23..27] == f[4..8] && d[27..31] == f[8..12];
    assert d[31..35] == f[12..16];
    assert d[35..39] == c[0..4] && d[39..43] == c[4..8] && d[43..47] == c[8..12];
    DecodeEncode(h.magic, 4); DecodeEncode(h.version, 2); DecodeEncode(h.sessionId, 8);
    DecodeEncode(h.messageId, 4); DecodeEncode(h.fragmentIndex, 2); DecodeEncode(h.fragmentCount, 2);
    DecodeEncode(h.totalSize, 4); DecodeEncode(h.payloadSize, 4); DecodeEncode(h.fragmentOffset, 4);
    DecodeEncodeWord(h.messageCrc); DecodeEncodeWord(h.headerCrc); DecodeEncodeWord(h.payloadCrc);
  }

  lemma HeaderBytesRead(d: seq<byte>)
    requires |d| >= HEADER_SIZE
    ensures HeaderBytes(ReadHeader(d)) == d[..HEADER_SIZE]
  {
    hide Encode, EncodeWord, Decode, DecodeWord, AddressBytes, FragmentBytes, CheckBytes, Pow256;
    var h := ReadHeader(d);
    AddressRead(d, h);
    FragmentRead(d, h);
    CheckRead(d, h);
    assert d[..47] == d[..19] + d[19..35] + d[35..47];
  }

  lemma AddressRead(d: seq<byte>, h: PacketHeader)
    requires |d| >= HEADER_SIZE && h == ReadHeader(d)
    ensures AddressBytes(h) == d[..19]
  {
    hide Encode, EncodeWord, Decode, DecodeWord, Pow256;
    EncodeDecode(d[0..4]); EncodeDecode(d[4..6]); EncodeDecode(d[7..15]); EncodeDecode(d[15..19]);
    assert d[..19] == d[0..4] + d[4..6] + [d[6]] + d[7..15] + d[15..19];
  }

  lemma FragmentRead(d: seq<byte>, h: PacketHeader)
    requires |d| >= HEADER_SIZE && h == ReadHeader(d)
    ensures FragmentBytes(h) == d[19..35]
  {
    hide Encode, EncodeWord, Decode, DecodeWord, Pow256;
    EncodeDecode(d[19..21]); EncodeDecode(d[21..23]); EncodeDecode(d[23..27]); EncodeDecode(d[27..31]);
    EncodeDecode(d[31..35]);
    assert d[19..35] == d[19..21] + d[21..23] + d[23..27] + d[27..31] + d[31..35];
  }

  lemma CheckRead(d: seq<byte>, h: PacketHeader)
    requires |d| >= HEADER_SIZE && h == ReadHeader(d)
    ensures CheckBytes(h) == d[35..47]
  {
    hide Encode, EncodeWord, Decode, DecodeWord, Pow256;
    EncodeDecodeWord(d[35..39]); EncodeDecodeWord(d[39..43]); EncodeDecodeWord(d[43..47]);
    assert d[35..47] == d[35..39] + d[39..43] + d[43..47];
  }

  // ----- Building and parsing -----

  /** The CRC over the header with the field that will hold it cleared. */
  function HeaderCrc(h: PacketHeader): bv32 {
    Crc(HeaderBytes(h.(headerCrc := 0)))
  }

  /** The header as it leaves: the sender's fields, the payload's length and the two CRCs. */
  function Sealed(h: PacketHeader, payload: seq<byte>): PacketHeader {
    var filled := h.(payloadSize := |payload| % 0x1_0000_0000,
                     headerCrc := 0,
                     payloadCrc := if |payload| == 0 then 0 else Crc(payload));
    filled.(headerCrc := HeaderCrc(filled))
  }

  function Packet(h: PacketHeader, payload: seq<byte>): seq<byte> {
    HeaderBytes(Sealed(h, payload)) + payload
  }

  lemma PacketLength(h: PacketHeader, p: seq<byte>)
    ensures |Packet(h, p)| == HEADER_SIZE + |p|
  {
    hide Sealed, HeaderBytes;
  }

  method BuildPacket(header: PacketHeader, payload: seq<byte>) returns (out: seq<byte>)
    ensures out == Packet(header, payload)
  {
    hide Crc, HeaderBytes;
    var h := header;
    h := h.(payloadSize := |payload| % 0x1_0000_0000);
    h := h.(headerCrc := 0);
    if |payload| == 0 {
      h := h.(payloadCrc := 0);
    } else {
      var crc := UdpCommon.Crc32(payload);
      h := h.(payloadCrc := crc);
    }
    var sum := UdpCommon.Crc32(HeaderBytes(h.(headerCrc := 0)));
    h := h.(headerCrc := sum);
    out := HeaderBytes(h);
    if |payload| != 0 {
      out := out + payload;
    }
  }

  predicate FragmentInBounds(h: PacketHeader) {
    && h.fragmentIndex < h.fragmentCount
    && 0 < h.totalSize
    && h.fragmentOffset + h.payloadSize <= h.totalSize
  }

  /** Every test ParsePacket makes, together. */
  predicate Acceptable(d: seq<byte>) {
    && |d| >= HEADER_SIZE
    && var h := ReadHeader(d);
    && h.magic == UDP_MAGIC && h.version == UDP_VERSION
    && HEADER_SIZE + h.payloadSize <= |d|
    && HeaderCrc(h) == h.headerCrc
    && (h.payloadSize > 0 ==> Crc(d[HEADER_SIZE..HEADER_SIZE + h.payloadSize]) == h.payloadCrc)
    && (h.kind == DATA_FRAGMENT ==> FragmentInBounds(h))
  }

  /** What a receiver gets from a datagram: the header and payload of an acceptable one. */
  function Parse(d: seq<byte>): ParsedPacket {
    if |d| < HEADER_SIZE then ParsedPacket(DEFAULT_HEADER, [], false, TooSmall) else
    var h := ReadHeader(d);
    if h.magic != UDP_MAGIC || h.version != UDP_VERSION then ParsedPacket(h, [], false, BadMagicVersion) else
    if HEADER_SIZE + h.payloadSize > |d| then ParsedPacket(h, [], false, SizeMismatch) else
    var payload := d[HEADER_SIZE..HEADER_SIZE + h.payloadSize];
    if HeaderCrc(h) != h.headerCrc then ParsedPacket(h, payload, false, HeaderCrcMismatch) else
    if h.payloadSize > 0 && Crc(payload) != h.payloadCrc then ParsedPacket(h, payload, false, PayloadCrcMismatch) else
    if h.kind == DATA_FRAGMENT && !FragmentInBounds(h) then ParsedPacket(h, payload, false, InvalidFragmentFields) else
    ParsedPacket(h, payload, true, None)
  }

  const RECEIVE_BUFFER: nat := 2048

  /** What the socket leaves of a datagram in the receive buffer. */
  function Truncated(d: seq<byte>): seq<byte> {
    if |d| > RECEIVE_BUFFER then d[..RECEIVE_BUFFER] else d
  }

  method ParsePacket(datagram: seq<byte>) returns (result: ParsedPacket)
    ensures result == Parse(datagram)
    ensures result.ok <==> Acceptable(datagram)
  {
    hide Crc, HeaderBytes, ReadHeader;
    result := ParsedPacket(DEFAULT_HEADER, [], false, None);
    if |datagram| < HEADER_SIZE {
      result := result.(reject := TooSmall);
      return;
    }
    result := result.(header := ReadHeader(datagram));
    if result.header.magic != UDP_MAGIC || result.header.version != UDP_VERSION {
      result := result.(reject := BadMagicVersion);
      return;
    }
    var payloadOffset := HEADER_SIZE;
    if payloadOffset + result.header.payloadSize > |datagram| {
      result := result.(reject := SizeMismatch);
      return;
    }
    result := result.(payload := datagram[payloadOffset..payloadOffset + result.header.payloadSize]);
    var headerCrc := UdpCommon.Crc32(HeaderBytes(result.header.(headerCrc := 0)));
    if headerCrc != result.header.headerCrc {
      result := result.(reject := HeaderCrcMismatch);
      return;
    }
    if result.header.payloadSize > 0 {
      var payloadCrc := UdpCommon.Crc32(result.payload);
      if payloadCrc != result.header.payloadCrc {
        result := result.(reject := PayloadCrcMismatch);
        return;
      }
    }
    if result.header.kind == DATA_FRAGMENT {
      if result.header.fragmentCount == 0
         || result.header.fragmentIndex >= result.header.fragmentCount
         || result.header.totalSize == 0
         || result.header.fragmentOffset > result.header.totalSize
         || result.header.fragmentOffset + result.header.payloadSize > result.header.totalSize
      {
        result := result.(reject := InvalidFragmentFields);
        return;
      }
    }
    result := result.(ok := true, reject := None);
  }

  // ----- Round trips -----

  /** A built datagram is accepted exactly when its sender kept the magic, the version and, for a
      fragment, the bounds; the receiver then sees the sender's fields and payload. */
  lemma ParseOfBuilt(h: PacketHeader, p: seq<byte>)
    requires |p| < 0x1_0000_0000
    ensures Parse(Packet(h, p)).ok <==>
            && h.magic == UDP_MAGIC && h.version == UDP_VERSION
            && (h.kind == DATA_FRAGMENT ==> FragmentInBounds(h.(payloadSize := |p|)))
    ensures Parse(Packet(h, p)).ok ==>
            && Parse(Packet(h, p)).payload == p
            && var r := Parse(Packet(h, p)).header;
               r == h.(payloadSize := |p|, headerCrc := r.headerCrc, payloadCrc := r.payloadCrc)
  {
    hide Crc, HeaderBytes, ReadHeader;
    var d := Packet(h, p);
    ReadHeaderBytes(Sealed(h, p), p);
    assert d[HEADER_SIZE..HEADER_SIZE + |p|] == p;
    assert Sealed(h, p).(headerCrc := 0)
        == h.(payloadSize := |p|, headerCrc := 0, payloadCrc := if |p| == 0 then 0 else Crc(p));
  }

  /** Rebuilding what an accepted datagram was parsed into gives its bytes back, except that an
      empty fragment's payload CRC, which nobody looks at, is rebuilt as zero. */
  lemma BuildOfParsed(d: seq<byte>)
    requires Parse(d).ok
    ensures var r := Parse(d);
            Packet(r.header, r.payload) == d[..HEADER_SIZE + r.header.payloadSize]
            <==> (r.header.payloadSize > 0 || r.header.payloadCrc == 0)
  {
    hide Crc, HeaderBytes, ReadHeader;
    var r := Parse(d);
    var h := r.header;
    HeaderBytesRead(d);
    var n := HEADER_SIZE + h.payloadSize;
    assert d[..n] == d[..HEADER_SIZE] + d[HEADER_SIZE..n];
    if h.payloadSize > 0 || h.payloadCrc == 0 {
      assert Sealed(h, r.payload) == h;
    } else {
      ReadHeaderBytes(Sealed(h, r.payload), r.payload);
      ReadHeaderBytes(h, r.payload);
      assert Sealed(h, r.payload).payloadCrc != h.payloadCrc;
    }
  }
}
