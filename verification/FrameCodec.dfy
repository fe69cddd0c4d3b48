/**
 The frame and protocol message codecs as they run (matter/message/messages.py): an output buffer that
 grows field by field, and an offset i that moves over the optional fields.
 */
module FrameCodec {
  import opened Wrappers
  import opened Bytes
  import opened Frames
  import opened SecureMessages
  import BitStruct

  method EncodeMatterFrame(f: MatterFrame) returns (r: Result<seq<byte>>)
    ensures r == EncodeFrame(f)
  {
    hide BitStruct.Encode, Le, MessageFlags, SecurityFlags;
    var out :- BitStruct.Encode(MessageFlags(f));
    ghost var flags := out;
    var sid :- ToBytes(f.sessionId, 2);
    out := out + sid;
    var sec :- BitStruct.Encode(SecurityFlags(f));
    out := out + sec;
    var ctr :- ToBytes(f.counter, 4);
    out := out + ctr;
    ghost var fixed := out;
    if f.source.Some? {
      out := out + Take(f.source.value, 8);
    }
    assert out == fixed + Take(OrEmpty(f.source), 8);
    ghost var sourced := out;
    if f.destNode.Some? {
      out := out + Take(f.destNode.value, 8);
    } else if f.destGroup.Some? {
      out := out + Take(f.destGroup.value, 2);
    }
    assert out == sourced + DestBytes(f);
    ghost var addressed := out;
    if f.extensions.Some? {
      var l :- ToBytes(|f.extensions.value|, 2);
      out := out + l;
      out := out + f.extensions.value;
      assert out == addressed + (l + f.extensions.value);
    }
    assert out == addressed + ExtensionBytes(f.extensions).value;
    out := out + f.payload;
    return Success(out);
  }

  /** Reading at an offset past the fixed octets is reading in the body. */
  lemma PastFixed(data: seq<byte>, n: nat, k: nat)
    requires |data| >= 8
    ensures Slice(data, 8 + n, k) == Slice(data[8..], n, k) && Drop(data, 8 + n) == Drop(data[8..], n)
  {
    DropDrop(data, 8, n);
  }

  /** The optional fields, read while the offset i advances over them. */
  method DecodeBody(hasSource: bool, node: bool, group: bool, hasExt: bool, data: seq<byte>) returns (b: BodyFields)
    requires |data| >= 8 && !(node && group)
    ensures b == ReadBody(hasSource, node, group, hasExt, data[8..])
  {
    hide Slice, Drop, FromLe;
    var i := 8;
    var source, destNode, destGroup, extensions := None, None, None, None;
    if hasSource {
      source := Some(Slice(data, i, 8));
      PastFixed(data, i - 8, 8);
      i := i + 8;
    }
    if node {
      destNode := Some(Slice(data, i, 8));
      PastFixed(data, i - 8, 8);
      i := i + 8;
    } else if group {
      destGroup := Some(Slice(data, i, 2));
      PastFixed(data, i - 8, 2);
      i := i + 2;
    }
    if hasExt {
      var length := FromLe(Slice(data, i, 2));
      extensions := Some(Slice(data, i + 2, length));
      PastFixed(data, i - 8, 2);
      PastFixed(data, i - 6, length);
      i := i + length + 2;
    }
    PastFixed(data, i - 8, 0);
    b := BodyFields(source, destGroup, destNode, extensions, Drop(data, i), i - 8);
  }

  method DecodeMatterFrame(data: seq<byte>) returns (r: Result<MatterFrame>)
    ensures r == DecodeFrame(data)
  {
    hide BitStruct.Decode, FromLe, ReadBody, Take;
    if |data| < 8 {
      return Failure(ValueError);
    }
    var m :- BitStruct.Decode(data[0..1], MESSAGE_FLAGS);
    var sessionId := FromLe(data[1..3]);
    var s :- BitStruct.Decode(data[3..4], SECURITY_FLAGS);
    if s[4] != Some(0) && s[4] != Some(1) {
      return Failure(ValueError);
    }
    var counter := FromLe(data[4..8]);
    if m[0] == Some(3) {
      return Failure(ValueError);
    }
    var b := DecodeBody(m[1] == Some(1), m[0] == Some(1), m[0] == Some(2), s[2] == Some(1), data);
    return Success(MatterFrame(m[3].GetOr(0), sessionId, counter, s[0] == Some(1), s[1] == Some(1),
                               if s[4] == Some(1) then Group else Unicast, b.source, b.destGroup, b.destNode,
                               b.extensions, b.payload, Take(data, 8 + b.length)));
  }

  method EncodeProtocolMessage(m: ProtocolMessage) returns (r: Result<seq<byte>>)
    ensures r == EncodeMessage(m)
  {
    hide FlagOctet, Le;
    var out := [FlagOctet(m)];
    if !(0 <= m.opcode < 256) {
      return Failure(ValueError);
    }
    out := out + [m.opcode];
    assert out == [FlagOctet(m), m.opcode];
    var exchange :- ToBytes(m.exchangeId, 2);
    out := out + exchange;
    ghost var exchanged := out;
    if m.vendor != 0 {
      var vendor :- ToBytes(m.vendor, 2);
      out := out + vendor;
    }
    assert out == exchanged + if m.vendor != 0 then ToBytes(m.vendor, 2).value else [];
    var protocol :- ToBytes(m.protocol, 2);
    out := out + protocol;
    ghost var addressed := out;
    if m.ack.Some? {
      var ack :- ToBytes(m.ack.value, 4);
      out := out + ack;
    }
    assert out == addressed + AckBytes(m.ack).value;
    ghost var acked := out;
    if m.extensions.Some? {
      var l :- ToBytes(|m.extensions.value|, 2);
      out := out + l;
      out := out + m.extensions.value;
      assert out == acked + (l + m.extensions.value);
    }
    out := out + m.payload;
    assert out == acked + (ExtensionBytes(m.extensions).value + m.payload);
    return Success(out);
  }

  method DecodeProtocolMessage(data: seq<byte>) returns (r: Result<ProtocolMessage>)
    ensures r == DecodeMessage(data)
  {
    hide BitStruct.Bit, FromLe;
    if data == [] {
      return Failure(ValueError);
    }
    var flags := data[0];
    if |data| < 2 {
      return Failure(IndexError);
    }
    var opcode, exchange := data[1], FromLe(Slice(data, 2, 2));
    var i := 4;
    var vendor := 0;
    if BitStruct.Bit(flags, 4) {
      vendor := FromLe(Slice(data, i, 2));
      i := i + 2;
    }
    var protocol := FromLe(Slice(data, i, 2));
    i := i + 2;
    var ack := None;
    if BitStruct.Bit(flags, 1) {
      ack := Some(FromLe(Slice(data, i, 4)));
      i := i + 4;
    }
    var extensions := None;
    if BitStruct.Bit(flags, 3) {
      var length := FromLe(Slice(data, i, 2));
      extensions := Some(Slice(data, i + 2, length));
      i := i + length + 2;
    }
    return Success(ProtocolMessage(BitStruct.Bit(flags, 0), BitStruct.Bit(flags, 2), exchange, vendor, protocol, opcode,
                                   ack,
                                   extensions, Drop(data, i)));
  }
}
