/** Sending: a message is cut into fragments and each fragment becomes a datagram. The server's
    sessions and the client share this code. */
module UdpSend {
  import opened CrcSpec
  import opened LittleEndian
  import opened Coverage
  import opened UdpPacket
  import UdpCommon

  /** Ceiling division, kept in 16 bits. */
  function FragmentCount(total: nat, m: nat): u16
    requires m > 0
  {
    ((total + m - 1) / m) % 0x1_0000
  }

  function PieceSize(total: nat, m: nat, index: nat): int {
    var rest := total - index * m;
    if m < rest then m else rest
  }

  lemma PieceInMessage(total: nat, m: nat, index: nat)
    requires m > 0 && index < FragmentCount(total, m)
    ensures 0 < PieceSize(total, m, index) <= m
    ensures index * m + PieceSize(total, m, index) <= total
  {
    var c := (total + m - 1) / m;
    assert index + 1 <= c;
    Below(index, c, m);
  }

  lemma Below(index: nat, c: nat, m: nat)
    requires index + 1 <= c
    ensures index * m + m <= c * m
  {
    assert c * m == (index + 1) * m + (c - index - 1) * m;
  }

  function PieceBytes(payload: seq<byte>, m: nat, index: nat): (r: seq<byte>)
    requires m > 0 && index < FragmentCount(|payload|, m)
    ensures 0 < |r| == PieceSize(|payload|, m, index)
  {
    PieceInMessage(|payload|, m, index);
    payload[index * m..index * m + PieceSize(|payload|, m, index)]
  }

  function MessageCrc(payload: seq<byte>): bv32 {
    if |payload| == 0 then 0 else Crc(payload)
  }

  function PieceHeader(sessionId: u64, messageId: u32, payload: seq<byte>, m: nat, index: nat): PacketHeader
    requires m > 0 && index < FragmentCount(|payload|, m)
  {
    DEFAULT_HEADER.(
      kind := DATA_FRAGMENT, sessionId := sessionId, messageId := messageId,
      fragmentIndex := index, fragmentCount := FragmentCount(|payload|, m),
      totalSize := |payload| % 0x1_0000_0000, fragmentOffset := (index * m) % 0x1_0000_0000,
      messageCrc := MessageCrc(payload))
  }

  function PieceDatagram(sessionId: u64, messageId: u32, payload: seq<byte>, m: nat, index: nat): seq<byte>
    requires m > 0 && index < FragmentCount(|payload|, m)
  {
    Packet(PieceHeader(sessionId, messageId, payload, m, index), PieceBytes(payload, m, index))
  }

  /** Everything one message is sent as, in sending order. */
  function Datagrams(sessionId: u64, messageId: u32, payload: seq<byte>, m: nat): (r: seq<seq<byte>>)
    requires m > 0
    ensures |r| == FragmentCount(|payload|, m)
    ensures forall i | 0 <= i < |r| :: r[i] == PieceDatagram(sessionId, messageId, payload, m, i)
  {
    seq(FragmentCount(|payload|, m), i requires 0 <= i < FragmentCount(|payload|, m) =>
      PieceDatagram(sessionId, messageId, payload, m, i))
  }

  /** A message is cut no finer than it must be: every datagram carries something and fits, and all
      but the last are full. */
  lemma DatagramSizes(sessionId: u64, messageId: u32, payload: seq<byte>, m: nat)
    requires m > 0
    ensures var ds := Datagrams(sessionId, messageId, payload, m);
            forall i | 0 <= i < |ds| :: 47 < |ds[i]| <= 47 + m && (i + 1 < |ds| ==> |ds[i]| == 47 + m)
  {
    hide Packet, PieceBytes, PieceSize, FragmentCount, Datagrams;
    var ds := Datagrams(sessionId, messageId, payload, m);
    forall i | 0 <= i < |ds|
      ensures 47 < |ds[i]| <= 47 + m && (i + 1 < |ds| ==> |ds[i]| == 47 + m)
    {
      PacketLength(PieceHeader(sessionId, messageId, payload, m, i), PieceBytes(payload, m, i));
      PieceInMessage(|payload|, m, i);
      if i + 1 < |ds| { FullPiece(|payload|, m, i); }
    }
  }

  lemma PieceIs(sessionId: u64, messageId: u32, payload: seq<byte>, m: nat, index: nat, offset: nat)
    requires m > 0 && index < FragmentCount(|payload|, m) && offset == index * m
    ensures var size := if m < |payload| - offset then m else |payload| - offset;
            && 0 < size && offset + size <= |payload|
            && Packet(PieceHeader(sessionId, messageId, payload, m, index), payload[offset..offset + size])
               == PieceDatagram(sessionId, messageId, payload, m, index)
  {
    hide Packet, FragmentCount, PieceHeader;
    PieceInMessage(|payload|, m, index);
  }

  class Sender {
    const maxMessageSize: nat
    const mtuPayload: nat
    /** A server session always may send; a client once its handshake is complete. */
    var ready: bool
    var sessionId: u64
    var nextMessageId: u32
    /** The datagrams handed to the socket so far. */
    var sent: seq<seq<byte>>

    constructor (maxMessageSize: nat, mtuPayload: nat, sessionId: u64)
      ensures this.maxMessageSize == maxMessageSize && this.mtuPayload == mtuPayload
      ensures ready && this.sessionId == sessionId && nextMessageId == 1 && sent == []
    {
      this.maxMessageSize := maxMessageSize;
      this.mtuPayload := mtuPayload;
      this.sessionId := sessionId;
      ready := true;
      nextMessageId := 1;
      sent := [];
    }

    /** A message goes out, under the next message id, exactly when the sender is ready, the message
        is not too large and a datagram has room for more than the 47 bytes of a header. */
    method SendInternal(payload: seq<byte>)
      modifies this
      ensures ready == old(ready) && sessionId == old(sessionId)
      ensures if old(ready) && |payload| <= maxMessageSize && mtuPayload > 47 then
                && sent == old(sent) + Datagrams(sessionId, old(nextMessageId), payload, mtuPayload - 47)
                && nextMessageId == (old(nextMessageId) + 1) % 0x1_0000_0000
              else
                sent == old(sent) && nextMessageId == old(nextMessageId)
      ensures forall i | |old(sent)| <= i < |sent| :: |sent[i]| <= mtuPayload
    {
      hide Packet, Crc, PieceDatagram, PieceBytes, PieceSize, Datagrams;
      if !ready {
        return;
      }
      if |payload| > maxMessageSize {
        return;
      }
      var maxPayloadPerPacket := if mtuPayload > HEADER_SIZE then mtuPayload - HEADER_SIZE else 0;
      if maxPayloadPerPacket == 0 {
        return;
      }
      var messageId := nextMessageId;
      nextMessageId := (nextMessageId + 1) % 0x1_0000_0000;
      var total := |payload|;
      var fragmentCount: u16 := ((total + maxPayloadPerPacket - 1) / maxPayloadPerPacket) % 0x1_0000;
      var messageCrc: bv32 := 0;
      if total != 0 {
        messageCrc := UdpCommon.Crc32(payload);
      }
      assert fragmentCount == FragmentCount(total, maxPayloadPerPacket) && messageCrc == MessageCrc(payload);
      hide FragmentCount, MessageCrc;
      ghost var all := Datagrams(sessionId, messageId, payload, maxPayloadPerPacket);
      var index := 0;
      while index < fragmentCount
        invariant 0 <= index <= fragmentCount
        invariant sent == old(sent) + all[..index]
        invariant ready == old(ready) && sessionId == old(sessionId)
        invariant nextMessageId == (old(nextMessageId) + 1) % 0x1_0000_0000
      {
        var offset := index * maxPayloadPerPacket;
        PieceIs(sessionId, messageId, payload, maxPayloadPerPacket, index, offset);
        var size := if maxPayloadPerPacket < total - offset then maxPayloadPerPacket else total - offset;
        var header := DEFAULT_HEADER;
        header := header.(kind := DATA_FRAGMENT, sessionId := sessionId, messageId := messageId);
        header := header.(fragmentIndex := index, fragmentCount := fragmentCount, totalSize := total % 0x1_0000_0000);
        header := header.(fragmentOffset := offset % 0x1_0000_0000, messageCrc := messageCrc);
        assert header == PieceHeader(sessionId, messageId, payload, maxPayloadPerPacket, index);
        var packet := BuildPacket(header, payload[offset..offset + size]);
        assert packet == all[index];
        assert all[..index + 1] == all[..index] + [packet];
        sent := sent + [packet];
        index := index + 1;
      }
      assert all[..fragmentCount] == all;
      DatagramSizes(sessionId, messageId, payload, maxPayloadPerPacket);
    }
  }

  // ----- What the cut covers -----

  function PieceRange(total: nat, m: nat, index: nat): Range
    requires m > 0 && index < FragmentCount(total, m)
  {
    PieceInMessage(total, m, index);
    Range(index * m, PieceSize(total, m, index))
  }

  function PieceRanges(total: nat, m: nat): (r: seq<Range>)
    requires m > 0
    ensures |r| == FragmentCount(total, m)
    ensures forall i | 0 <= i < |r| :: r[i] == PieceRange(total, m, i)
  {
    seq(FragmentCount(total, m), i requires 0 <= i < FragmentCount(total, m) => PieceRange(total, m, i))
  }

  lemma CountFits(total: nat, m: nat)
    requires m > 0 && total <= 65535 * m
    ensures FragmentCount(total, m) == (total + m - 1) / m
    ensures total > 0 ==> FragmentCount(total, m) > 0
    ensures total <= FragmentCount(total, m) * m < total + m
  {
    var c := (total + m - 1) / m;
    Quotient(total + m - 1, m);
    if c >= 65536 {
      Below(65535, c, m);
    }
  }

  lemma Quotient(x: nat, m: nat)
    requires m > 0
    ensures 0 <= x / m && x / m * m <= x < x / m * m + m
  {
  }

  lemma FullPiece(total: nat, m: nat, i: nat)
    requires m > 0 && i + 1 < FragmentCount(total, m)
    ensures PieceSize(total, m, i) == m
  {
    PieceInMessage(total, m, i + 1);
    assert (i + 1) * m == i * m + m;
  }

  lemma PiecesChain(total: nat, m: nat)
    requires m > 0 && 0 < total <= 65535 * m
    ensures Chain(PieceRanges(total, m), total)
  {
    CountFits(total, m);
    var a := PieceRanges(total, m);
    forall i, j | 0 <= i < j < |a| && j == i + 1 ensures a[j].off == a[i].End() {
      FullPiece(total, m, i);
      assert (i + 1) * m == i * m + m;
    }
    var last := |a| - 1;
    PieceInMessage(total, m, last);
    assert (last + 1) * m == last * m + m;
  }

  /** The fragments of a non-empty message tile it exactly when it is no longer than 65535 full
      fragments; a longer one is cut short by the 16-bit count. */
  lemma PiecesTileIff(total: nat, m: nat)
    requires m > 0 && total > 0
    ensures ExactCover(PieceRanges(total, m), total) <==> total <= 65535 * m
  {
    if total <= 65535 * m {
      PiecesChain(total, m);
      ChainIsExact(PieceRanges(total, m), total);
    } else if ExactCover(PieceRanges(total, m), total) {
      var a := PieceRanges(total, m);
      assert Covered(a, total - 1);
      var k :| 0 <= k < |a| && a[k].Covers(total - 1);
      PieceInMessage(total, m, k);
      Below(k, 65535, m);
    }
  }
}
