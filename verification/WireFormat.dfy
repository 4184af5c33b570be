/** The bytes on the wire, place by place: what is where, lowest byte first. A peer in another
    language needs nothing else to understand them. */
module WireFormat {
  import opened CrcSpec
  import opened LittleEndian
  import opened UdpPacket
  import opened UdpIntegrity
  import GameMessages
  import Handshake

  /** From this place on, the bytes with their weights add up to the number. */
  predicate HoldsNumber(d: seq<byte>, at: nat, k: nat, n: nat) {
    at + k <= |d| && Weighted(d[at..at + k]) == n
  }

  /** The four bytes of a word, lowest first. */
  predicate HoldsWord(d: seq<byte>, at: nat, w: bv32) {
    && at + 4 <= |d|
    && d[at] as bv32 == w & 0xFF && d[at + 1] as bv32 == (w >> 8) & 0xFF
    && d[at + 2] as bv32 == (w >> 16) & 0xFF && d[at + 3] as bv32 == w >> 24
  }

  lemma EncodedHolds(d: seq<byte>, at: nat, k: nat, n: nat)
    requires at + k <= |d| && d[at..at + k] == Encode(n, k) && n < Pow256(k)
    ensures HoldsNumber(d, at, k, n)
  {
    hide Encode, Decode, Weighted, Pow256;
    DecodeEncode(n, k);
    DecodeIsWeighted(d[at..at + k]);
  }

  lemma WordBytes(s: seq<byte>, w: bv32)
    requires s == EncodeWord(w)
    ensures s[0] as bv32 == w & 0xFF && s[1] as bv32 == (w >> 8) & 0xFF
    ensures s[2] as bv32 == (w >> 16) & 0xFF && s[3] as bv32 == w >> 24
  {
  }

  lemma EncodedWordHolds(d: seq<byte>, at: nat, w: bv32)
    requires at + 4 <= |d| && d[at..at + 4] == EncodeWord(w)
    ensures HoldsWord(d, at, w)
  {
    hide EncodeWord;
    WordBytes(d[at..at + 4], w);
  }

  lemma FieldHolds(d: seq<byte>, at: nat, k: nat)
    requires at + k <= |d|
    ensures HoldsNumber(d, at, k, Field(d[at..at + k], k))
  {
    hide Decode, Weighted, Pow256;
    DecodeIsWeighted(d[at..at + k]);
  }

  // ----- A datagram of the UDP transport -----

  /** The numbers of a header, each at its place. */
  ghost predicate NumbersInPlace(d: seq<byte>, h: PacketHeader) {
    && HoldsNumber(d, 0, 4, h.magic) && HoldsNumber(d, 4, 2, h.version) && HoldsNumber(d, 6, 1, Value(h.kind))
    && HoldsNumber(d, 7, 8, h.sessionId) && HoldsNumber(d, 15, 4, h.messageId)
    && HoldsNumber(d, 19, 2, h.fragmentIndex) && HoldsNumber(d, 21, 2, h.fragmentCount)
    && HoldsNumber(d, 23, 4, h.totalSize) && HoldsNumber(d, 27, 4, h.payloadSize)
    && HoldsNumber(d, 31, 4, h.fragmentOffset)
  }

  ghost predicate WordsInPlace(d: seq<byte>, h: PacketHeader) {
    HoldsWord(d, 35, h.messageCrc) && HoldsWord(d, 39, h.headerCrc) && HoldsWord(d, 43, h.payloadCrc)
  }

  lemma ByteHolds(d: seq<byte>, at: nat)
    requires at < |d|
    ensures HoldsNumber(d, at, 1, Value(d[at]))
  {
    hide Value;
    assert d[at..at + 1] == [] + [d[at]];
    WeightedLast([], d[at]);
  }

  /** Every header read from a datagram is the one its bytes spell. */
  lemma ReadInPlace(d: seq<byte>)
    requires |d| >= HEADER_SIZE
    ensures NumbersInPlace(d, ReadHeader(d)) && WordsInPlace(d, ReadHeader(d))
  {
    hide Field, HoldsNumber, HoldsWord, DecodeWord, Value;
    FieldHolds(d, 0, 4); FieldHolds(d, 4, 2); ByteHolds(d, 6); FieldHolds(d, 7, 8); FieldHolds(d, 15, 4);
    FieldHolds(d, 19, 2); FieldHolds(d, 21, 2); FieldHolds(d, 23, 4); FieldHolds(d, 27, 4); FieldHolds(d, 31, 4);
    EncodeDecodeWord(d[35..39]); EncodeDecodeWord(d[39..43]); EncodeDecodeWord(d[43..47]);
    hide EncodeWord;
    EncodedWordHolds(d, 35, DecodeWord(d[35..39]));
    EncodedWordHolds(d, 39, DecodeWord(d[39..43]));
    EncodedWordHolds(d, 43, DecodeWord(d[43..47]));
  }

  lemma PacketReads(h: PacketHeader, p: seq<byte>)
    ensures var d := Packet(h, p);
            |d| == HEADER_SIZE + |p| && d[HEADER_SIZE..] == p && ReadHeader(d) == Sealed(h, p)
  {
    hide HeaderBytes, ReadHeader;
    ReadHeaderBytes(Sealed(h, p), p);
  }

  lemma SealedIs(h: PacketHeader, p: seq<byte>)
    ensures var s := Sealed(h, p);
            && s == h.(payloadSize := |p| % 0x1_0000_0000, headerCrc := s.headerCrc, payloadCrc := s.payloadCrc)
            && s.headerCrc == HeaderCrc(s) && s.payloadCrc == if |p| == 0 then 0 else Crc(p)
  {
    hide Crc;
  }

  /** Byte by byte, what leaves for a header and a payload: the sender's fields and the payload's
      length lowest byte first, the message CRC, the CRC of the header with that place zero, the
      CRC of the payload, and the payload. */
  lemma PacketInPlace(h: PacketHeader, p: seq<byte>)
    ensures var d := Packet(h, p);
            && |d| == HEADER_SIZE + |p| && d[HEADER_SIZE..] == p
            && NumbersInPlace(d, h.(payloadSize := |p| % 0x1_0000_0000))
            && HoldsWord(d, 35, h.messageCrc)
            && HoldsWord(d, 39, Crc(d[..39] + [0, 0, 0, 0] + d[43..47]))
            && HoldsWord(d, 43, if |p| == 0 then 0 else Crc(p))
  {
    hide Packet, Sealed, ReadHeader, HoldsNumber, HoldsWord, Crc, HeaderBytes, EncodeWord;
    var d := Packet(h, p);
    PacketReads(h, p);
    SealedIs(h, p);
    ReadInPlace(d);
    CoveredBytes(d);
    ZeroWord();
  }

  lemma ZeroWord()
    ensures EncodeWord(0) == [0, 0, 0, 0]
  {
  }

  lemma DigitIs(d: seq<byte>, at: nat, k: nat, n: nat, i: nat, b: byte)
    requires HoldsNumber(d, at, k, n) && i < k && Pow256(i) > 0 && b as int == n / Pow256(i) % 256
    ensures d[at + i] == b
  {
    hide Encode, Decode, Weighted, Pow256, Value;
    DecodeIsWeighted(d[at..at + k]);
    EncodeDecode(d[at..at + k]);
    DigitAt(n, k, i);
    ValueIs(d[at + i]);
    SameByte(d[at + i], b);
  }

  lemma ValueIs(b: byte)
    ensures Value(b) == b as int
  {
  }

  /** What every datagram begins with. */
  lemma Beginning(h: PacketHeader, p: seq<byte>)
    requires h.magic == UDP_MAGIC && h.version == UDP_VERSION
    ensures Packet(h, p)[..6] == [0x55, 0x4B, 0x4E, 0x53, 0x02, 0x00]
  {
    var d := Packet(h, p);
    PacketInPlace(h, p);
    BeginningBytes(d);
  }

  lemma BeginningBytes(d: seq<byte>)
    requires |d| >= 6 && HoldsNumber(d, 0, 4, 0x534E_4B55) && HoldsNumber(d, 4, 2, 2)
    ensures d[..6] == [0x55, 0x4B, 0x4E, 0x53, 0x02, 0x00]
  {
    hide HoldsNumber;
    Weights();
    DigitIs(d, 0, 4, 0x534E_4B55, 0, 0x55);
    DigitIs(d, 0, 4, 0x534E_4B55, 1, 0x4B);
    DigitIs(d, 0, 4, 0x534E_4B55, 2, 0x4E);
    DigitIs(d, 0, 4, 0x534E_4B55, 3, 0x53);
    DigitIs(d, 4, 2, 2, 0, 0x02);
    DigitIs(d, 4, 2, 2, 1, 0x00);
  }

  lemma Weights()
    ensures Pow256(0) == 1 && Pow256(1) == 256 && Pow256(2) == 0x1_0000 && Pow256(3) == 0x100_0000
  {
  }

  /** The three kinds of datagram by their first bytes, and where a welcome has the session id. */
  lemma Kinds(h: PacketHeader, p: seq<byte>, id: u64)
    requires h.magic == UDP_MAGIC && h.version == UDP_VERSION && h.kind == DATA_FRAGMENT
    ensures Handshake.Hello()[..7] == [0x55, 0x4B, 0x4E, 0x53, 0x02, 0x00, 1]
    ensures Packet(Handshake.WelcomeHeader(id), [])[..7] == [0x55, 0x4B, 0x4E, 0x53, 0x02, 0x00, 2]
    ensures HoldsNumber(Packet(Handshake.WelcomeHeader(id), []), 7, 8, id)
    ensures Packet(h, p)[..7] == [0x55, 0x4B, 0x4E, 0x53, 0x02, 0x00, 10]
  {
    KindAt(DEFAULT_HEADER.(kind := HANDSHAKE_HELLO), []);
    KindAt(Handshake.WelcomeHeader(id), []);
    KindAt(h, p);
    PacketInPlace(Handshake.WelcomeHeader(id), []);
    hide Packet, HoldsNumber, HoldsWord;
  }

  lemma PacketKind(h: PacketHeader, p: seq<byte>)
    ensures |Packet(h, p)| >= 47 && Packet(h, p)[6] == h.kind
  {
    hide Packet, ReadHeader, Sealed, HeaderCrc, Crc;
    PacketReads(h, p);
    SealedIs(h, p);
    ReadKind(Packet(h, p));
  }

  lemma OneByteMore(d: seq<byte>, front: seq<byte>, b: byte)
    requires |d| >= 7 && d[..6] == front && d[6] == b
    ensures d[..7] == front + [b]
  {
  }

  lemma KindAt(h: PacketHeader, p: seq<byte>)
    requires h.magic == UDP_MAGIC && h.version == UDP_VERSION
    ensures Packet(h, p)[..7] == [0x55, 0x4B, 0x4E, 0x53, 0x02, 0x00, h.kind]
  {
    hide Packet;
    Beginning(h, p);
    PacketKind(h, p);
    OneByteMore(Packet(h, p), [0x55, 0x4B, 0x4E, 0x53, 0x02, 0x00], h.kind);
  }

  lemma ReadKind(d: seq<byte>)
    requires |d| >= HEADER_SIZE
    ensures ReadHeader(d).kind == d[6]
  {
    hide Field, DecodeWord;
  }

  // ----- A game message -----

  /** The same for a message of the game protocol. */
  lemma MessageInPlace(kind: u16, sequence: u32, frame: u32, payload: seq<byte>)
    ensures var d := GameMessages.Message(kind, sequence, frame, payload);
            && |d| == 20 + |payload| && d[20..] == payload
            && HoldsNumber(d, 0, 2, kind) && HoldsNumber(d, 2, 2, 3)
            && HoldsNumber(d, 4, 4, sequence) && HoldsNumber(d, 8, 4, frame)
            && HoldsNumber(d, 12, 4, |payload| % 0x1_0000_0000)
            && HoldsWord(d, 16, if |payload| == 0 then 0 else Crc(payload))
  {
    hide GameMessages.HeaderBytes, GameMessages.ReadHeader, Crc, HoldsNumber, HoldsWord;
    var h := GameMessages.HeaderFor(kind, sequence, frame, payload);
    GameMessages.ReadHeaderBytes(h, payload);
    MessageReadInPlace(GameMessages.Message(kind, sequence, frame, payload));
  }

  lemma MessageReadInPlace(d: seq<byte>)
    requires |d| >= 20
    ensures var h := GameMessages.ReadHeader(d);
            && HoldsNumber(d, 0, 2, h.kind) && HoldsNumber(d, 2, 2, h.version)
            && HoldsNumber(d, 4, 4, h.sequence) && HoldsNumber(d, 8, 4, h.frame)
            && HoldsNumber(d, 12, 4, h.payloadBytes) && HoldsWord(d, 16, h.payloadCrc32)
  {
    hide Field, HoldsNumber, HoldsWord, DecodeWord;
    FieldHolds(d, 0, 2); FieldHolds(d, 2, 2); FieldHolds(d, 4, 4); FieldHolds(d, 8, 4); FieldHolds(d, 12, 4);
    EncodeDecodeWord(d[16..20]);
    hide EncodeWord;
    EncodedWordHolds(d, 16, DecodeWord(d[16..20]));
  }

  lemma GameWordAt(d: seq<byte>, w: bv32)
    requires |d| >= 20
    ensures GameMessages.ReadHeader(d).payloadCrc32 == w <==> HoldsWord(d, 16, w)
  {
    hide Field, HoldsWord, DecodeWord;
    WordIff(d, 16, w);
  }

  // ----- What a datagram is refused for -----

  lemma SameWord(x: bv32, y: bv32)
    requires x & 0xFF == y & 0xFF && (x >> 8) & 0xFF == (y >> 8) & 0xFF
    requires (x >> 16) & 0xFF == (y >> 16) & 0xFF && x >> 24 == y >> 24
    ensures x == y
  {
  }

  lemma OneWordHeld(d: seq<byte>, at: nat, v: bv32, w: bv32)
    requires HoldsWord(d, at, v) && HoldsWord(d, at, w)
    ensures v == w
  {
    SameWord(v, w);
  }

  lemma WordIff(d: seq<byte>, at: nat, w: bv32)
    requires at + 4 <= |d|
    ensures DecodeWord(d[at..at + 4]) == w <==> HoldsWord(d, at, w)
  {
    hide *;
    var v := DecodeWord(d[at..at + 4]);
    EncodeDecodeWord(d[at..at + 4]);
    EncodedWordHolds(d, at, v);
    if HoldsWord(d, at, w) { OneWordHeld(d, at, v, w); }
  }

  lemma WordsAt(d: seq<byte>, w: bv32, v: bv32)
    requires |d| >= HEADER_SIZE
    ensures ReadHeader(d).headerCrc == w <==> HoldsWord(d, 39, w)
    ensures ReadHeader(d).payloadCrc == v <==> HoldsWord(d, 43, v)
  {
    hide Field, HoldsWord, DecodeWord;
    WordIff(d, 39, w);
    WordIff(d, 43, v);
  }

  /** The number of k bytes at this place. */
  function At(d: seq<byte>, at: nat, k: nat): nat
    requires at + k <= |d|
  {
    Weighted(d[at..at + k])
  }

  /** The first thing wrong with a datagram, told from its bytes. */
  function Fault(d: seq<byte>): RejectReason {
    if |d| < 47 then TooSmall
    else if At(d, 0, 4) != 0x534E_4B55 || At(d, 4, 2) != 2 then BadMagicVersion
    else
      var n := At(d, 27, 4);
      if 47 + n > |d| then SizeMismatch
      else if !HoldsWord(d, 39, Crc(d[..39] + [0, 0, 0, 0] + d[43..47])) then HeaderCrcMismatch
      else if n > 0 && !HoldsWord(d, 43, Crc(d[47..47 + n])) then PayloadCrcMismatch
      else if d[6] == 10 && !(At(d, 19, 2) < At(d, 21, 2) && 0 < At(d, 23, 4) && At(d, 31, 4) + n <= At(d, 23, 4)) then
        InvalidFragmentFields
      else None
  }

  lemma ReadFromBytes(d: seq<byte>)
    requires |d| >= 47
    ensures var h := ReadHeader(d);
            && At(d, 0, 4) == h.magic && At(d, 4, 2) == h.version && d[6] == h.kind
            && At(d, 19, 2) == h.fragmentIndex && At(d, 21, 2) == h.fragmentCount
            && At(d, 23, 4) == h.totalSize && At(d, 27, 4) == h.payloadSize && At(d, 31, 4) == h.fragmentOffset
            && HeaderCrc(h) == Crc(d[..39] + [0, 0, 0, 0] + d[43..47])
  {
    ReadInPlace(d);
    CoveredBytes(d);
    ZeroWord();
    hide WordsInPlace, HeaderBytes, Crc, Weighted, EncodeWord;
  }

  /** The parser names the first thing wrong and accepts when nothing is. */
  lemma ReasonIsFault(d: seq<byte>)
    ensures Parse(d).reject == Fault(d)
    ensures Parse(d).ok <==> Fault(d) == None
  {
    hide ReadHeader, HeaderCrc, HoldsWord, Crc, At;
    if |d| >= 47 {
      ReadFromBytes(d);
      var n := ReadHeader(d).payloadSize;
      if 47 + n <= |d| { WordsAt(d, HeaderCrc(ReadHeader(d)), Crc(d[47..47 + n])); }
    }
  }

  /** What the parser hands over besides its verdict: the header as soon as there is one, and the
      payload as soon as the sizes agree. */
  lemma HandedOver(d: seq<byte>)
    ensures |d| >= 47 ==> NumbersInPlace(d, Parse(d).header) && WordsInPlace(d, Parse(d).header)
    ensures Parse(d).payload
         == if Fault(d) in {TooSmall, BadMagicVersion, SizeMismatch} then [] else d[47..47 + At(d, 27, 4)]
  {
    hide ReadHeader, HeaderCrc, HoldsWord, Crc, At, NumbersInPlace, WordsInPlace;
    ReasonIsFault(d);
    if |d| >= 47 {
      ReadInPlace(d);
      ReadFromBytes(d);
    }
  }

  /** A datagram cut short is refused as such: too small without its header, and of the wrong size
      without all of its payload. */
  lemma CutShort(h: PacketHeader, p: seq<byte>, n: nat)
    requires h.magic == UDP_MAGIC && h.version == UDP_VERSION && |p| < 0x1_0000_0000 && n < HEADER_SIZE + |p|
    ensures |Packet(h, p)| == HEADER_SIZE + |p|
    ensures Parse(Packet(h, p)[..n]).reject == if n < HEADER_SIZE then TooSmall else SizeMismatch
  {
    hide Packet, Parse, HoldsWord, Crc, Weighted;
    var d := Packet(h, p);
    PacketInPlace(h, p);
    ReasonIsFault(d[..n]);
    if n >= HEADER_SIZE {
      assert d[..n][0..4] == d[0..4] && d[..n][4..6] == d[4..6] && d[..n][27..31] == d[27..31];
    }
  }

  /** A sender with another magic or version is refused for that, whatever else it sends. */
  lemma OtherVersion(h: PacketHeader, p: seq<byte>)
    requires h.magic != UDP_MAGIC || h.version != UDP_VERSION
    ensures Parse(Packet(h, p)).reject == BadMagicVersion
  {
    hide Packet, Parse, HoldsWord, Crc, Weighted;
    PacketInPlace(h, p);
    ReasonIsFault(Packet(h, p));
  }

  // ----- What a game message is refused for -----

  function MessageFault(d: seq<byte>): GameMessages.ParseError {
    if |d| < 20 then GameMessages.TooSmall
    else if At(d, 2, 2) != 3 then GameMessages.BadVersion
    else if |d| != 20 + At(d, 12, 4) then GameMessages.SizeMismatch
    else if !HoldsWord(d, 16, if |d| > 20 then Crc(d[20..]) else 0) then GameMessages.CrcMismatch
    else GameMessages.Ok
  }

  lemma MessageErrorIsFault(d: seq<byte>)
    ensures GameMessages.ParseOutcome(d) == MessageFault(d)
  {
    if |d| >= 20 {
      MessageReadInPlace(d);
      GameWordAt(d, if |d| > 20 then Crc(d[20..]) else 0);
      hide GameMessages.ReadHeader, HoldsWord, Crc, Weighted;
    }
  }

  /** A game message that was cut or grew is refused as such. */
  lemma MessageCutOrGrown(kind: u16, sequence: u32, frame: u32, payload: seq<byte>, n: nat, more: seq<byte>)
    requires |payload| < 0x1_0000_0000 && n <= 20 + |payload| && n + |more| != 20 + |payload|
    requires n < 20 ==> more == []
    ensures var d := GameMessages.Message(kind, sequence, frame, payload);
            |d| == 20 + |payload| && GameMessages.ParseOutcome(d[..n] + more)
            == if n < 20 then GameMessages.TooSmall else GameMessages.SizeMismatch
  {
    hide GameMessages.Message, GameMessages.ParseOutcome, HoldsWord, Crc, Weighted;
    var d := GameMessages.Message(kind, sequence, frame, payload);
    MessageInPlace(kind, sequence, frame, payload);
    MessageErrorIsFault(d[..n] + more);
    if n >= 20 {
      assert (d[..n] + more)[2..4] == d[2..4] && (d[..n] + more)[12..16] == d[12..16];
    }
  }
}
