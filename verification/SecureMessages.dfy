/**
 Protocol messages, and the agreement of sender and receiver on the inputs of authenticated encryption
 (matter/message/messages.py, and send_with_session / process_recv_matter_frame in
 matter/message/message_layer.py). The cipher itself is a parameter.
 */
module SecureMessages {
  import opened Wrappers
  import opened Bytes
  import opened Frames
  import BitMask
  import BitStruct

  // ---------------------------------------------------------------------- protocol messages

  datatype ProtocolMessage = ProtocolMessage(
    initiator: bool, reliability: bool, exchangeId: int, vendor: int, protocol: int, opcode: int,
    ack: Option<int>, extensions: Option<seq<byte>>, payload: seq<byte>)

  /** Bits 0 to 4: initiator, acknowledgement, reliability, secured extensions, vendor. */
  function ExchangeFlags(m: ProtocolMessage): seq<BitMask.Flag> {
    [BitMask.Flag(0, m.initiator), BitMask.Flag(1, m.ack.Some?), BitMask.Flag(2, m.reliability),
     BitMask.Flag(3, m.extensions.Some?), BitMask.Flag(4, m.vendor != 0)]
  }

  function FlagOctet(m: ProtocolMessage): byte {
    BitMask.OctetBits(ExchangeFlags(m));
    BitMask.Encode(1, ExchangeFlags(m)).value[0]
  }

  function AckBytes(ack: Option<int>): Result<seq<byte>> {
    if ack.None? then Success([]) else ToBytes(ack.value, 4)
  }

  function EncodeMessage(m: ProtocolMessage): Result<seq<byte>> {
    var opcode :- if 0 <= m.opcode < 256 then Success(m.opcode as byte) else Failure(ValueError);
    var exchange :- ToBytes(m.exchangeId, 2);
    var vendor :- if m.vendor != 0 then ToBytes(m.vendor, 2) else Success([]);
    var protocol :- ToBytes(m.protocol, 2);
    var ack :- AckBytes(m.ack);
    var ext :- ExtensionBytes(m.extensions);
    Success([FlagOctet(m), opcode] + exchange + vendor + protocol + ack + (ext + m.payload))
  }

  function DecodeMessage(data: seq<byte>): Result<ProtocolMessage> {
    if data == [] then Failure(ValueError)
    else if |data| < 2 then Failure(IndexError)
    else
      var flags := data[0];
      var i := if BitStruct.Bit(flags, 4) then 6 else 4;
      var j := if BitStruct.Bit(flags, 1) then i + 6 else i + 2;
      var (ext, k) := DecodeExtensions(BitStruct.Bit(flags, 3), data, j);
      Success(ProtocolMessage(
        BitStruct.Bit(flags, 0), BitStruct.Bit(flags, 2), FromLe(Slice(data, 2, 2)),
        if BitStruct.Bit(flags, 4) then FromLe(Slice(data, 4, 2)) else 0, FromLe(Slice(data, i, 2)), data[1],
        if BitStruct.Bit(flags, 1) then Some(FromLe(Slice(data, i + 2, 4))) else None, ext, Drop(data, k)))
  }

  /** Reading one part of a concatenation at its offset. */
  lemma PartAt(before: seq<byte>, part: seq<byte>, after: seq<byte>)
    ensures Slice(before + part + after, |before|, |part|) == part
    ensures Drop(before + part + after, |before| + |part|) == after
  {
    assert before + part + after == before + (part + after);
    TakeDropOfConcat(before, part + after);
    TakeDropOfConcat(part, after);
    TakeDropOfConcat(before + part, after);
  }

  /** Where the parts of an encoded message lie. */
  ghost predicate LaidOut(m: ProtocolMessage, d: seq<byte>) {
    var i := if m.vendor != 0 then 6 else 4;
    var j := if m.ack.Some? then i + 6 else i + 2;
    && |d| >= 4 && d[0] == FlagOctet(m) && d[1] == m.opcode
    && ToBytes(m.exchangeId, 2) == Success(Slice(d, 2, 2))
    && (m.vendor != 0 ==> ToBytes(m.vendor, 2) == Success(Slice(d, 4, 2)))
    && ToBytes(m.protocol, 2) == Success(Slice(d, i, 2))
    && (m.ack.Some? ==> ToBytes(m.ack.value, 4) == Success(Slice(d, i + 2, 4)))
    && ExtensionBytes(m.extensions).Success? && Drop(d, j) == ExtensionBytes(m.extensions).value + m.payload
  }

  lemma EncodedLaidOut(m: ProtocolMessage)
    requires EncodeMessage(m).Success?
    ensures LaidOut(m, EncodeMessage(m).value)
  {
    hide Le, FlagOctet, LaidOut, ToBytes, ExtensionBytes;
    PartsLaidOut(m, ToBytes(m.exchangeId, 2).value, if m.vendor != 0 then ToBytes(m.vendor, 2).value else [],
                 ToBytes(m.protocol, 2).value, AckBytes(m.ack).value, ExtensionBytes(m.extensions).value);
  }

  lemma PartsLaidOut(m: ProtocolMessage, exchange: seq<byte>, vendor: seq<byte>, protocol: seq<byte>, ack: seq<byte>,
                     ext: seq<byte>)
    requires 0 <= m.opcode < 256 && ToBytes(m.exchangeId, 2) == Success(exchange)
             && ToBytes(m.protocol, 2) == Success(protocol)
    requires if m.vendor != 0 then ToBytes(m.vendor, 2) == Success(vendor) else vendor == []
    requires if m.ack.Some? then ToBytes(m.ack.value, 4) == Success(ack) else ack == []
    requires ExtensionBytes(m.extensions) == Success(ext)
    ensures LaidOut(m, [FlagOctet(m), m.opcode as byte] + exchange + vendor + protocol + ack + (ext + m.payload))
  {
    hide Le, FlagOctet, Slice, Drop, LaidOut, ExtensionBytes;
    var head: seq<byte> := [FlagOctet(m), m.opcode];
    var d := head + exchange + vendor + protocol + ack + (ext + m.payload);
    Cuts(head, exchange, vendor, protocol, ack, ext + m.payload);
    assert d[0] == head[0] && d[1] == head[1];
    IsLaidOut(m, d, vendor, ack);
  }

  lemma Cuts(head: seq<byte>, a: seq<byte>, b: seq<byte>, c: seq<byte>, e: seq<byte>, rest: seq<byte>)
    ensures var d := head + a + b + c + e + rest;
            var i := |head| + |a|;
            var j := i + |b|;
            && Slice(d, |head|, |a|) == a && Slice(d, i, |b|) == b && Slice(d, j, |c|) == c
            && Slice(d, j + |c|, |e|) == e && Drop(d, j + |c| + |e|) == rest
  {
    hide Slice, Drop;
    var d := head + a + b + c + e + rest;
    assert d == head + a + (b + c + e + rest);
    PartAt(head, a, b + c + e + rest);
    assert d == (head + a) + b + (c + e + rest);
    PartAt(head + a, b, c + e + rest);
    assert d == (head + a + b) + c + (e + rest);
    PartAt(head + a + b, c, e + rest);
    PartAt(head + a + b + c, e, rest);
  }

  lemma IsLaidOut(m: ProtocolMessage, d: seq<byte>, vendor: seq<byte>, ack: seq<byte>)
    requires ExtensionBytes(m.extensions).Success? && |d| >= 4 && d[0] == FlagOctet(m) && d[1] == m.opcode
    requires |vendor| == (if m.vendor != 0 then 2 else 0) && |ack| == (if m.ack.Some? then 4 else 0)
    requires m.vendor != 0 ==> ToBytes(m.vendor, 2) == Success(vendor)
    requires m.ack.Some? ==> ToBytes(m.ack.value, 4) == Success(ack)
    requires ToBytes(m.exchangeId, 2) == Success(Slice(d, 2, 2)) && Slice(d, 4, |vendor|) == vendor
    requires ToBytes(m.protocol, 2) == Success(Slice(d, 4 + |vendor|, 2)) && Slice(d, 6 + |vendor|, |ack|) == ack
    requires Drop(d, 6 + |vendor| + |ack|) == ExtensionBytes(m.extensions).value + m.payload
    ensures LaidOut(m, d)
  {
    hide Slice, Drop, FlagOctet, ExtensionBytes, ToBytes;
  }

  /** A message encodes exactly when its numbers fit their octets. */
  lemma MessageEncodesIff(m: ProtocolMessage)
    ensures EncodeMessage(m).Success? <==>
            0 <= m.opcode < 256 && 0 <= m.exchangeId < 0x1_0000 && 0 <= m.vendor < 0x1_0000
              && 0 <= m.protocol < 0x1_0000
            && (m.ack.Some? ==> 0 <= m.ack.value < COUNTERS) && (m.extensions.Some? ==> |m.extensions.value| < 0x1_0000)
  {
    Pow256Values();
    hide Le, Pow256, FlagOctet;
  }

  lemma FlagsAre(m: ProtocolMessage)
    ensures BitStruct.Bit(FlagOctet(m), 0) == m.initiator && BitStruct.Bit(FlagOctet(m), 1) == m.ack.Some?
    ensures BitStruct.Bit(FlagOctet(m), 2) == m.reliability && BitStruct.Bit(FlagOctet(m), 3) == m.extensions.Some?
    ensures BitStruct.Bit(FlagOctet(m), 4) == (m.vendor != 0)
  {
    var flags := ExchangeFlags(m);
    BitMask.OctetBits(flags);
    hide BitStruct.Bit, BitMask.Encode;
    assert forall i | 0 <= i < 5 :: flags[i].position == i;
    assert BitStruct.Bit(FlagOctet(m), flags[0].position) == flags[0].value;
    assert BitStruct.Bit(FlagOctet(m), flags[1].position) == flags[1].value;
    assert BitStruct.Bit(FlagOctet(m), flags[2].position) == flags[2].value;
    assert BitStruct.Bit(FlagOctet(m), flags[3].position) == flags[3].value;
    assert BitStruct.Bit(FlagOctet(m), flags[4].position) == flags[4].value;
  }

  /** Every protocol message that encodes decodes to itself. */
  lemma MessageRoundTrip(m: ProtocolMessage)
    requires EncodeMessage(m).Success?
    ensures DecodeMessage(EncodeMessage(m).value) == Success(m)
  {
    var d := EncodeMessage(m).value;
    EncodedLaidOut(m);
    FlagsAre(m);
    FromLeOfLe(m.exchangeId, 2);
    FromLeOfLe(m.protocol, 2);
    if m.vendor != 0 { FromLeOfLe(m.vendor, 2); }
    if m.ack.Some? { FromLeOfLe(m.ack.value, 4); }
    hide FlagOctet, BitStruct.Bit, FromLe, Le, ExtensionBytes, DecodeExtensions, EncodeMessage, Slice, Drop;
    var j := if m.ack.Some? then (if m.vendor != 0 then 12 else 10) else (if m.vendor != 0 then 8 else 6);
    ReadExtensions(m.extensions, m.payload);
    ShiftExtensions(m.extensions.Some?, d, j);
    DropDrop(d, j, |ExtensionBytes(m.extensions).value|);
  }

  // ---------------------------------------------------------------------- authenticated encryption

  datatype Role = Initiator | Responder

  /** What a secure session contributes to a frame. */
  datatype Session = Session(role: Role, peerSessionId: int, i2rKey: seq<byte>, r2iKey: seq<byte>,
                             localNode: int, peerNode: int, counter: int)

  /** The arguments of the cipher. */
  datatype Aead = Aead(key: seq<byte>, nonce: seq<byte>, text: seq<byte>, associated: seq<byte>)

  function HeaderFrame(s: Session): MatterFrame {
    MatterFrame(0, s.peerSessionId, s.counter, false, false, Unicast, None, None, None, None, [], [])
  }

  /** The sender's cipher arguments for a plaintext. */
  function SealInputs(s: Session, data: seq<byte>): Result<Aead> {
    var header :- EncodeFrame(HeaderFrame(s));
    var node :- ToBytes(s.localNode, 8);
    Success(Aead(if s.role.Initiator? then s.i2rKey else s.r2iKey, Slice(header, 3, 5) + node, data, header))
  }

  /** `send_with_session`: the bytes sent, given the cipher. */
  function Send(seal: Aead -> seq<byte>, s: Session, data: seq<byte>): Result<seq<byte>> {
    var a :- SealInputs(s, data);
    Success(a.associated + seal(a))
  }

  /** The receiver's cipher arguments for a decoded frame. */
  function OpenInputs(s: Session, f: MatterFrame): Result<Aead> {
    var ctr :- ToBytes(f.counter, 4);
    var node :- ToBytes(s.peerNode, 8);
    var key := if s.role.Initiator? then s.r2iKey else s.i2rKey;
    Success(Aead(key, Slice(f.header, 3, 1) + ctr + node, f.payload, f.header))
  }

  predicate Addressed(s: Session) {
    0 <= s.peerSessionId < 0x1_0000 && 0 <= s.localNode < 0x1_0000_0000_0000_0000
  }

  /** Ids and counter fit their octets. */
  predicate Sendable(s: Session) {
    Addressed(s) && 0 <= s.counter < COUNTERS
  }

  lemma HeaderEncodesIff(s: Session)
    ensures EncodeFrame(HeaderFrame(s)).Success? <==> 0 <= s.peerSessionId < 0x1_0000 && 0 <= s.counter < COUNTERS
  {
    FrameEncodesIff(HeaderFrame(s));
    hide EncodeFrame;
  }

  /** A message is sent, rather than an exception raised, exactly when ids and counter fit. */
  lemma SendSucceedsIff(seal: Aead -> seq<byte>, s: Session, data: seq<byte>)
    ensures SealInputs(s, data).Success? <==> Sendable(s)
    ensures Send(seal, s, data).Success? <==> Sendable(s)
  {
    HeaderEncodesIff(s);
    Pow256Values();
    hide EncodeFrame, Le, Pow256;
  }

  /** The two ends of one session. */
  predicate Paired(s: Session, r: Session) {
    s.role != r.role && s.i2rKey == r.i2rKey && s.r2iKey == r.r2iKey && r.peerNode == s.localNode
  }

  lemma BareHeader(s: Session)
    requires EncodeFrame(HeaderFrame(s)).Success?
    ensures var h := EncodeFrame(HeaderFrame(s)).value;
            |h| == 8 && ToBytes(s.counter, 4) == Success(h[4..8])
  {
    var f := HeaderFrame(s);
    Layout(f, EncodeFrame(f).value, BitStruct.Encode(MessageFlags(f)), BitStruct.Encode(SecurityFlags(f)));
    assert Body(HeaderFrame(s)) == [];
  }

  /** The header does not depend on the payload. */
  lemma HeaderThenText(f: MatterFrame, text: seq<byte>)
    requires EncodeFrame(f).Success? && f.payload == []
    ensures EncodeFrame(f.(payload := text)) == Success(EncodeFrame(f).value + text)
  {
    hide BitStruct.Encode, Le, Take, Pow2, Pow256;
    assert EncodeHeader(f.(payload := text)) == EncodeHeader(f);
    assert EncodeHeader(f).value + [] == EncodeHeader(f).value;
  }

  lemma NothingBeforeText(s: Session, text: seq<byte>)
    ensures var f := HeaderFrame(s).(payload := text);
            Body(f) == text && BodyRead(f).length == 0 && Canonical(f)
  {
  }

  lemma SentFrame(s: Session, text: seq<byte>)
    requires EncodeFrame(HeaderFrame(s)).Success?
    ensures var h := EncodeFrame(HeaderFrame(s)).value;
            DecodeFrame(h + text) == Success(HeaderFrame(s).(payload := text, header := h))
  {
    var f := HeaderFrame(s).(payload := text);
    var h := EncodeFrame(HeaderFrame(s)).value;
    HeaderThenText(HeaderFrame(s), text);
    NothingBeforeText(s, text);
    BareHeader(s);
    FrameRoundTripIff(f);
    hide EncodeFrame, DecodeFrame, Canonical, Body, BodyRead, Take, ExtensionBytes, Pow2, Pow256, BitStruct.LowBits;
    DecodedIs(f);
    TakeDropOfConcat(h, text);
  }

  /** The counter's octets follow the security flags' octet. */
  lemma NonceHead(h: seq<byte>)
    requires |h| == 8
    ensures Slice(h, 3, 5) == Slice(h, 3, 1) + h[4..8]
  {
    assert h[3..8] == h[3..4] + h[4..8];
  }

  /**
   The receiver rebuilds exactly the sender's key, nonce and associated data, and hands the cipher exactly
   the sender's ciphertext; the frame passes the receiver's validity checks.
   */
  lemma SameCipherInputs(seal: Aead -> seq<byte>, s: Session, r: Session, data: seq<byte>)
    requires Sendable(s) && Paired(s, r)
    ensures Send(seal, s, data).Success? && SealInputs(s, data).Success?
    ensures var a := SealInputs(s, data).value;
            var f := DecodeFrame(Send(seal, s, data).value);
            && f.Success? && f.value.version == 0 && f.value.sessionType.Unicast? && f.value.destGroup.None?
            && f.value.sessionId == s.peerSessionId && f.value.counter == s.counter && !f.value.privacy
            && OpenInputs(r, f.value) == Success(a.(text := seal(a)))
  {
    hide EncodeFrame, DecodeFrame, Le, Slice, Pow256;
    SendSucceedsIff(seal, s, data);
    HeaderEncodesIff(s);
    var a := SealInputs(s, data).value;
    SentFrame(s, seal(a));
    BareHeader(s);
    NonceHead(a.associated);
  }

  const COUNTERS := 0x1_0000_0000

  /** The session after i messages have been sent. */
  function Advanced(s: Session, i: nat): Session {
    s.(counter := (s.counter + i) % COUNTERS)
  }

  lemma NonceOf(s: Session, text: seq<byte>)
    requires Sendable(s)
    ensures SealInputs(s, text).Success?
    ensures var n := SealInputs(s, text).value.nonce;
            && |n| == 13 && BitStruct.Encode(SecurityFlags(HeaderFrame(s))) == Success(n[0..1])
            && ToBytes(s.counter, 4) == Success(n[1..5]) && ToBytes(s.localNode, 8) == Success(n[5..])
  {
    SendSucceedsIff(_ => [], s, text);
    HeaderEncodesIff(s);
    var f := HeaderFrame(s);
    Layout(f, EncodeFrame(f).value, BitStruct.Encode(MessageFlags(f)), BitStruct.Encode(SecurityFlags(f)));
    BareHeader(s);
    hide EncodeFrame, Le, Pow256, BitStruct.Encode, SecurityFlags, MessageFlags, Body, Send;
    var h := EncodeFrame(HeaderFrame(s)).value;
    var n := SealInputs(s, text).value.nonce;
    assert n == h[3..8] + ToBytes(s.localNode, 8).value;
    assert n[0..1] == h[3..4] && n[1..5] == h[4..8];
  }

  lemma SameCounterBytes(a: nat, b: nat)
    requires a < COUNTERS && b < COUNTERS
    ensures Le(a, 4) == Le(b, 4) <==> a == b
  {
    Pow256Values();
    FromLeOfLe(a, 4);
    FromLeOfLe(b, 4);
    hide Le, FromLe, Pow256;
  }

  /** Two messages of one session share a nonce exactly when their numbers agree modulo 2^32. */
  lemma NonceRepeatsIff(s: Session, i: nat, j: nat, text: seq<byte>, other: seq<byte>)
    requires Addressed(s)
    ensures SealInputs(Advanced(s, i), text).Success? && SealInputs(Advanced(s, j), other).Success?
    ensures SealInputs(Advanced(s, i), text).value.nonce == SealInputs(Advanced(s, j), other).value.nonce
            <==> (s.counter + i) % COUNTERS == (s.counter + j) % COUNTERS
  {
    hide SealInputs, Le, BitStruct.Encode, Pow256, EncodeFrame;
    var a, b := Advanced(s, i), Advanced(s, j);
    NonceOf(a, text);
    NonceOf(b, other);
    assert SecurityFlags(HeaderFrame(a)) == SecurityFlags(HeaderFrame(b));
    SameCounterBytes(a.counter, b.counter);
    Pow256Values();
    var m, n := SealInputs(a, text).value.nonce, SealInputs(b, other).value.nonce;
    hide SecurityFlags;
    DifferInMiddle(m, n);
  }

  lemma DifferInMiddle(m: seq<byte>, n: seq<byte>)
    requires |m| == |n| == 13 && m[0..1] == n[0..1] && m[5..] == n[5..]
    ensures m == n <==> m[1..5] == n[1..5]
  {
    assert m == m[0..1] + m[1..5] + m[5..] && n == n[0..1] + n[1..5] + n[5..];
  }

  /** Until its counter wraps, which ends the session, no nonce is used twice. */
  lemma LiveNoncesDistinct(s: Session, i: nat, j: nat, text: seq<byte>, other: seq<byte>)
    requires Addressed(s) && i < j && 0 <= s.counter && s.counter + j < COUNTERS
    ensures SealInputs(Advanced(s, i), text).Success? && SealInputs(Advanced(s, j), other).Success?
    ensures SealInputs(Advanced(s, i), text).value.nonce != SealInputs(Advanced(s, j), other).value.nonce
  {
    hide SealInputs;
    NonceRepeatsIff(s, i, j, text, other);
  }

  /** A secure session as the sender keeps it: only the counter changes. */
  class SecureSession {
    const role: Role
    const peerSessionId: int
    const i2rKey: seq<byte>
    const r2iKey: seq<byte>
    const localNode: int
    const peerNode: int
    var counter: int

    ghost function Abs(): Session
      reads this
    {
      Session(role, peerSessionId, i2rKey, r2iKey, localNode, peerNode, counter)
    }

    constructor (s: Session)
      ensures Abs() == s
    {
      role, peerSessionId, i2rKey, r2iKey := s.role, s.peerSessionId, s.i2rKey, s.r2iKey;
      localNode, peerNode, counter := s.localNode, s.peerNode, s.counter;
    }

    /** The frame to send; the counter advances once the header is built, and `dropped` says that it wrapped. */
    method SendWithSession(seal: Aead -> seq<byte>, data: seq<byte>) returns (frame: Result<seq<byte>>, dropped: bool)
      modifies this`counter
      ensures frame == Send(seal, old(Abs()), data)
      ensures Abs() == if EncodeFrame(HeaderFrame(old(Abs()))).Success? then Advanced(old(Abs()), 1) else old(Abs())
      ensures dropped <==> EncodeFrame(HeaderFrame(old(Abs()))).Success? && counter == 0
    {
      hide EncodeFrame;
      var header := EncodeFrame(MatterFrame(0, peerSessionId, counter, false, false, Unicast, None, None, None, None,
                                            [], []));
      if header.Failure? {
        return Failure(header.error), false;
      }
      counter := (counter + 1) % COUNTERS;
      dropped := counter == 0;
      var key := if role.Initiator? then i2rKey else r2iKey;
      var nonce := Slice(header.value, 3, 5);
      var node := ToBytes(localNode, 8);
      if node.Failure? {
        return Failure(node.error), dropped;
      }
      nonce := nonce + node.value;
      frame := Success(header.value + seal(Aead(key, nonce, data, header.value)));
    }
  }

  /**
   End to end: with a cipher that opens what it sealed, a protocol message sent on one end of a session is
   the message decoded at the other end.
   */
  lemma Delivered(seal: Aead -> seq<byte>, open: Aead -> Option<seq<byte>>, s: Session, r: Session, m: ProtocolMessage)
    requires forall a: Aead :: open(a.(text := seal(a))) == Some(a.text)
    requires EncodeMessage(m).Success? && Sendable(s) && Paired(s, r)
    ensures Send(seal, s, EncodeMessage(m).value).Success?
    ensures var f := DecodeFrame(Send(seal, s, EncodeMessage(m).value).value);
            f.Success? && OpenInputs(r, f.value).Success?
            && var text := open(OpenInputs(r, f.value).value);
               text.Some? && DecodeMessage(text.value) == Success(m)
  {
    SameCipherInputs(seal, s, r, EncodeMessage(m).value);
    MessageRoundTrip(m);
    hide EncodeMessage, DecodeMessage, DecodeFrame, EncodeFrame;
  }
}
