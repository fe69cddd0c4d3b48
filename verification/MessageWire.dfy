/** The octets of a message sent on a secure session, and what its cipher is given, with the numbers of the format. */
module MessageWire {
  import opened Wrappers
  import opened Bytes
  import opened Frames
  import opened SecureMessages
  import opened TlvWire
  import BitMask
  import BitStruct

  predicate ExchangeBit(m: ProtocolMessage, i: nat) {
    || (i == 0 && m.initiator) || (i == 1 && m.ack.Some?) || (i == 2 && m.reliability)
    || (i == 3 && m.extensions.Some?) || (i == 4 && m.vendor != 0)
  }

  lemma FlagOctetBits(m: ProtocolMessage, i: nat)
    requires i < 8
    ensures BitStruct.Bit(FlagOctet(m), i) <==> ExchangeBit(m, i)
  {
    var flags := ExchangeFlags(m);
    BitMask.OctetBits(flags);
    assert flags[0].position == 0 && flags[1].position == 1 && flags[2].position == 2 && flags[3].position == 3;
    assert flags[4].position == 4;
    hide BitStruct.Bit, BitMask.Encode;
    if i > 4 { BitMask.OtherBits(flags, i); }
  }

  /** The first octet of a protocol message, bit by bit. */
  lemma ExchangeBits(m: ProtocolMessage, i: nat)
    requires EncodeMessage(m).Success? && i < 8
    ensures |EncodeMessage(m).value| >= 2
    ensures BitStruct.Bit(EncodeMessage(m).value[0], i) <==> ExchangeBit(m, i)
  {
    EncodedLaidOut(m);
    FlagOctetBits(m, i);
    hide BitStruct.Bit, EncodeMessage, FlagOctet, ExchangeBit, Slice, Drop, ToBytes, ExtensionBytes;
  }

  /** A number that does not fit its octets raises on encoding, an opcode differently from the others. */
  lemma MessageRaises(m: ProtocolMessage)
    ensures EncodeMessage(m).Failure? ==>
              EncodeMessage(m) == Failure(if 0 <= m.opcode < 0x100 then OverflowError else ValueError)
  {
    hide FlagOctet, Le, Pow256;
  }

  /** A protocol message decodes exactly when there are two octets; what is missing after them reads as zero. */
  lemma MessageDecodesIff(data: seq<byte>)
    ensures DecodeMessage(data).Success? <==> |data| >= 2
    ensures |data| < 2 ==> DecodeMessage(data) == Failure(if data == [] then ValueError else IndexError)
    ensures |data| == 2 && data[0] == 0 ==>
              DecodeMessage(data) == Success(ProtocolMessage(false, false, 0, 0, 0, data[1], None, None, []))
  {
    if |data| == 2 && data[0] == 0 {
      forall i: nat ensures !BitStruct.Bit(0, i) {
        BitMask.ZeroBit(i);
      }
      assert Slice(data, 2, 2) == [] && Slice(data, 4, 2) == [] && FromLe([]) == 0;
      hide BitStruct.Bit, FromLe;
    }
  }

  /** The frame header of a session's messages: no flags, the peer's session id, a unicast session, the counter. */
  function SessionHeader(peer: int, counter: int): seq<byte> {
    [0x00] + Two(peer) + [0x00] + Four(counter)
  }

  lemma EightOctets(h: seq<byte>, a: seq<byte>, b: seq<byte>)
    requires |h| == 8 && h[0] == 0 && h[1..3] == a && h[3] == 0 && h[4..8] == b
    ensures h == [0x00] + a + [0x00] + b
  {
    assert h == [h[0]] + h[1..3] + [h[3]] + h[4..8];
  }

  lemma HeaderIs(s: Session)
    requires Sendable(s)
    ensures EncodeFrame(HeaderFrame(s)) == Success(SessionHeader(s.peerSessionId, s.counter))
  {
    hide EncodeFrame, BitStruct.Encode, ToBytes, Two, Four, Body, MessageFlags, SecurityFlags;
    HeaderEncodesIff(s);
    BareHeader(s);
    var f := HeaderFrame(s);
    var h := EncodeFrame(f).value;
    FlagOctets(f, h);
    Layout(f, h, BitStruct.Encode(MessageFlags(f)), BitStruct.Encode(SecurityFlags(f)));
    ToBytesIs(s.peerSessionId);
    ToBytesIs(s.counter);
    EightOctets(h, Two(s.peerSessionId), Four(s.counter));
  }

  /** What the cipher is given, and what is sent: the header in the clear and the sealed message. */
  lemma SentIs(seal: Aead -> seq<byte>, s: Session, data: seq<byte>)
    requires Sendable(s)
    ensures var header := SessionHeader(s.peerSessionId, s.counter);
            var nonce := [0x00] + Four(s.counter) + Eight(s.localNode);
            var a := Aead(if s.role.Initiator? then s.i2rKey else s.r2iKey, nonce, data, header);
            SealInputs(s, data) == Success(a) && Send(seal, s, data) == Success(header + seal(a))
  {
    HeaderIs(s);
    ToBytesIs(s.localNode);
    var header := SessionHeader(s.peerSessionId, s.counter);
    assert |header| == 8;
    assert Slice(header, 3, 5) == [0x00] + Four(s.counter);
    hide EncodeFrame, ToBytes, Two, Four, Eight, Slice;
  }

  /** After i messages the header and the nonce carry the first counter plus i, which starts again at 2^32. */
  lemma LaterSent(seal: Aead -> seq<byte>, s: Session, i: nat, data: seq<byte>)
    requires Sendable(s)
    ensures var c := (s.counter + i) % 0x1_0000_0000;
            var nonce := [0x00] + Four(c) + Eight(s.localNode);
            var a := Aead(if s.role.Initiator? then s.i2rKey else s.r2iKey, nonce, data,
                          SessionHeader(s.peerSessionId, c));
            Send(seal, Advanced(s, i), data) == Success(a.associated + seal(a))
  {
    AdvancedIs(s, i);
    hide Advanced, Sendable, Send, SealInputs, SessionHeader, Four, Eight;
    SentIs(seal, Advanced(s, i), data);
  }

  lemma AdvancedIs(s: Session, i: nat)
    requires Sendable(s)
    ensures Advanced(s, i) == s.(counter := (s.counter + i) % 0x1_0000_0000) && Sendable(Advanced(s, i))
  {
  }
}
