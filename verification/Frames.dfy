/** Message frames and protocol messages (matter/message/messages.py) and the inputs of their encryption. */
module Frames {
  import opened Wrappers
  import opened Bytes
  import BitStruct

  datatype SessionType = Unicast | Group

  /** A frame; ids are byte strings, and the header is what the decoder keeps for authentication. */
  datatype MatterFrame = MatterFrame(
    version: int, sessionId: int, counter: int, privacy: bool, control: bool, sessionType: SessionType,
    source: Option<seq<byte>>, destGroup: Option<seq<byte>>, destNode: Option<seq<byte>>,
    extensions: Option<seq<byte>>, payload: seq<byte>, header: seq<byte>)

  const MESSAGE_FLAGS := [BitStruct.Slot(2, true), BitStruct.Slot(1, true), BitStruct.Slot(1, false),
                          BitStruct.Slot(4, true)]
  const SECURITY_FLAGS := [BitStruct.Slot(1, true), BitStruct.Slot(1, true), BitStruct.Slot(1, true),
                           BitStruct.Slot(3, false),
                           BitStruct.Slot(2, true)]

  function MessageFlags(f: MatterFrame): seq<BitStruct.Field> {
    [BitStruct.Field(2, if f.destNode.Some? then 1 else if f.destGroup.Some? then 2 else 0),
     BitStruct.Field(1, Digit(f.source.Some?)), BitStruct.Field(1, 0), BitStruct.Field(4, f.version)]
  }

  function SecurityFlags(f: MatterFrame): seq<BitStruct.Field> {
    [BitStruct.Field(1, Digit(f.privacy)), BitStruct.Field(1, Digit(f.control)),
     BitStruct.Field(1, Digit(f.extensions.Some?)),
     BitStruct.Field(3, 0), BitStruct.Field(2, if f.sessionType.Group? then 1 else 0)]
  }

  function OrEmpty(b: Option<seq<byte>>): seq<byte> {
    if b.Some? then b.value else []
  }

  /** The destination bytes: a node id, or else a group id. */
  function DestBytes(f: MatterFrame): seq<byte> {
    if f.destNode.Some? then Take(f.destNode.value, 8) else Take(OrEmpty(f.destGroup), 2)
  }

  /** Length-prefixed extensions, if any. */
  function ExtensionBytes(ext: Option<seq<byte>>): Result<seq<byte>> {
    if ext.None? then Success([]) else var l :- ToBytes(|ext.value|, 2); Success(l + ext.value)
  }

  /** Everything before the payload. */
  function EncodeHeader(f: MatterFrame): Result<seq<byte>> {
    var flags :- BitStruct.Encode(MessageFlags(f));
    var sid :- ToBytes(f.sessionId, 2);
    var sec :- BitStruct.Encode(SecurityFlags(f));
    var ctr :- ToBytes(f.counter, 4);
    var ext :- ExtensionBytes(f.extensions);
    Success(flags + sid + sec + ctr + Take(OrEmpty(f.source), 8) + DestBytes(f) + ext)
  }

  function EncodeFrame(f: MatterFrame): Result<seq<byte>> {
    var h :- EncodeHeader(f);
    Success(h + f.payload)
  }

  /** `data[i:i + n]`. */
  function Slice(data: seq<byte>, i: nat, n: nat): seq<byte> {
    Take(Drop(data, i), n)
  }

  /** The extensions at offset i and the offset after them. */
  function DecodeExtensions(present: bool, data: seq<byte>, i: nat): (Option<seq<byte>>, nat) {
    if !present then (None, i)
    else var l := FromLe(Slice(data, i, 2)); (Some(Slice(data, i + 2, l)), i + 2 + l)
  }

  datatype BodyFields = BodyFields(source: Option<seq<byte>>, destGroup: Option<seq<byte>>, destNode: Option<seq<byte>>,
                                   extensions: Option<seq<byte>>, payload: seq<byte>, length: nat)

  /** The fields after the fixed eight bytes, and their length before the payload. */
  function ReadBody(hasSource: bool, node: bool, group: bool, hasExt: bool, b: seq<byte>): BodyFields {
    var i := if hasSource then 8 else 0;
    var j := if node then i + 8 else if group then i + 2 else i;
    var (ext, k) := DecodeExtensions(hasExt, b, j);
    BodyFields(if hasSource then Some(Slice(b, 0, 8)) else None, if group then Some(Slice(b, i, 2)) else None,
               if node then Some(Slice(b, i, 8)) else None, ext, Drop(b, k), k)
  }

  /** A frame from its decoded flags, its two numbers and its body. */
  function FrameOf(m: seq<Option<nat>>, s: seq<Option<nat>>, data: seq<byte>): MatterFrame
    requires |m| == 4 && |s| == 5 && |data| >= 8
  {
    var b := ReadBody(m[1] == Some(1), m[0] == Some(1), m[0] == Some(2), s[2] == Some(1), data[8..]);
    MatterFrame(m[3].GetOr(0), FromLe(data[1..3]), FromLe(data[4..8]), s[0] == Some(1), s[1] == Some(1),
                if s[4] == Some(1) then Group else Unicast,
                b.source, b.destGroup, b.destNode, b.extensions, b.payload, Take(data, 8 + b.length))
  }

  function DecodeFrame(data: seq<byte>): Result<MatterFrame> {
    if |data| < 8 then Failure(ValueError) else
    var m :- BitStruct.Decode(data[0..1], MESSAGE_FLAGS);
    var s :- BitStruct.Decode(data[3..4], SECURITY_FLAGS);
    if s[4] != Some(0) && s[4] != Some(1) then Failure(ValueError)
    else if m[0] == Some(3) then Failure(ValueError)
    else Success(FrameOf(m, s, data))
  }

  // ---------------------------------------------------------------------- flag octets

  lemma SmallPowers()
    ensures Pow2(1) == 2 && Pow2(2) == 4 && Pow2(3) == 8 && Pow2(4) == 16 && Pow256(1) == 256
  {
  }

  lemma MessageFlagsRoundTrip(f: MatterFrame)
    ensures BitStruct.Encode(MessageFlags(f)).Success? <==> 0 <= f.version < 256
    ensures 0 <= f.version < 256 ==>
              var b := BitStruct.Encode(MessageFlags(f)).value;
              |b| == 1 && BitStruct.Decode(b, MESSAGE_FLAGS)
              == Success([Some(MessageFlags(f)[0].value), Some(Digit(f.source.Some?)), None,
                          Some(BitStruct.LowBits(f.version, 4))])
  {
    SmallPowers();
    var fs := MessageFlags(f);
    BitStruct.TotalBitsOf(fs);
    hide BitStruct.LowBits, BitStruct.Unpack, BitStruct.Pack, BitStruct.Decode, BitStruct.TotalBits, Pow2, Pow256;
    assert BitStruct.FitsBytes(fs[0]) && BitStruct.FitsBytes(fs[1]) && BitStruct.FitsBytes(fs[2]);
    assert BitStruct.FitsBytes(fs[3]) <==> 0 <= f.version < 256;
    if 0 <= f.version < 256 {
      BitStruct.CutExactly(fs[0].value, 2);
      BitStruct.CutExactly(fs[1].value, 1);
      BitStruct.RoundTrip(fs, MESSAGE_FLAGS, []);
      assert BitStruct.Encode(fs).value + [] == BitStruct.Encode(fs).value;
      assert BitStruct.Values(fs, MESSAGE_FLAGS)
          == [Some(fs[0].value), Some(Digit(f.source.Some?)), None, Some(BitStruct.LowBits(f.version, 4))];
    }
  }

  lemma FieldExact(f: BitStruct.Field)
    requires 0 <= f.value < Pow2(f.width)
    ensures BitStruct.FitsBytes(f) && BitStruct.LowBits(f.value, f.width) == f.value
  {
    BitStruct.WithinWidthFits(f);
    BitStruct.CutExactly(f.value, f.width);
  }

  lemma SecurityFlagsRoundTrip(f: MatterFrame)
    ensures BitStruct.Encode(SecurityFlags(f)).Success?
    ensures var b := BitStruct.Encode(SecurityFlags(f)).value;
            |b| == 1 && BitStruct.Decode(b, SECURITY_FLAGS)
            == Success([Some(Digit(f.privacy)), Some(Digit(f.control)), Some(Digit(f.extensions.Some?)), None,
                        Some(SecurityFlags(f)[4].value)])
  {
    hide BitStruct.LowBits, BitStruct.Unpack, BitStruct.Pack, BitStruct.Decode, BitStruct.TotalBits, Pow2, Pow256;
    hide BitStruct.FitsBytes, Le;
    SmallPowers();
    var fs := SecurityFlags(f);
    BitStruct.TotalBitsOf(fs);
    FieldExact(fs[0]);
    FieldExact(fs[1]);
    FieldExact(fs[2]);
    FieldExact(fs[3]);
    FieldExact(fs[4]);
    BitStruct.RoundTrip(fs, SECURITY_FLAGS, []);
    assert BitStruct.Encode(fs).value + [] == BitStruct.Encode(fs).value;
    assert BitStruct.Values(fs, SECURITY_FLAGS)
        == [Some(Digit(f.privacy)), Some(Digit(f.control)), Some(Digit(f.extensions.Some?)), None, Some(fs[4].value)];
  }

  /** A frame encodes exactly when its numbers fit their octets; a version of more than four bits is cut. */
  lemma FrameEncodesIff(f: MatterFrame)
    ensures EncodeFrame(f).Success? <==>
            0 <= f.version < 256 && 0 <= f.sessionId < 0x1_0000 && 0 <= f.counter < 0x1_0000_0000
            && (f.extensions.Some? ==> |f.extensions.value| < 0x1_0000)
  {
    MessageFlagsRoundTrip(f);
    SecurityFlagsRoundTrip(f);
    Pow256Values();
    hide BitStruct.Encode, BitStruct.Decode, Le, Pow256, MessageFlags, SecurityFlags, Take, DestBytes;
    hide BitStruct.LowBits;
  }

  // ---------------------------------------------------------------------- frame round trip

  /** What follows the fixed eight bytes. */
  function Body(f: MatterFrame): seq<byte>
    requires ExtensionBytes(f.extensions).Success?
  {
    Take(OrEmpty(f.source), 8) + (DestBytes(f) + (ExtensionBytes(f.extensions).value + f.payload))
  }

  /** Where the parts of an encoded frame lie. */
  lemma Layout(f: MatterFrame, d: seq<byte>, flags: Result<seq<byte>>, security: Result<seq<byte>>)
    requires EncodeFrame(f) == Success(d)
    requires flags == BitStruct.Encode(MessageFlags(f)) && security == BitStruct.Encode(SecurityFlags(f))
    ensures |d| >= 8 && d[8..] == Body(f)
    ensures flags == Success(d[0..1]) && ToBytes(f.sessionId, 2) == Success(d[1..3])
    ensures security == Success(d[3..4]) && ToBytes(f.counter, 4) == Success(d[4..8])
  {
    MessageFlagsRoundTrip(f);
    SecurityFlagsRoundTrip(f);
    hide BitStruct.Encode, BitStruct.Decode, Le, MessageFlags, SecurityFlags, Take, DestBytes;
    var sid, ctr := ToBytes(f.sessionId, 2).value, ToBytes(f.counter, 4).value;
    assert d == flags.value + sid + security.value + ctr + Body(f);
    assert d[0..1] == flags.value && d[1..3] == sid && d[3..4] == security.value && d[4..8] == ctr;
  }

  /** The two flag octets, bit by bit; the reserved bits are zero. */
  lemma FlagOctets(f: MatterFrame, d: seq<byte>)
    requires EncodeFrame(f) == Success(d)
    ensures |d| >= 8
    ensures d[0] == (if f.destNode.Some? then 1 else if f.destGroup.Some? then 2 else 0)
                    + (if f.source.Some? then 4 else 0) + 16 * (f.version % 16)
    ensures d[3] == (if f.privacy then 1 else 0) + (if f.control then 2 else 0)
                    + (if f.extensions.Some? then 4 else 0) + (if f.sessionType.Group? then 64 else 0)
  {
    var flags, security := BitStruct.Encode(MessageFlags(f)), BitStruct.Encode(SecurityFlags(f));
    Layout(f, d, flags, security);
    MessageOctet(f, flags);
    SecurityOctet(f, security);
    hide EncodeFrame, BitStruct.Encode, Le;
    assert d[0] == d[0..1][0] && d[3] == d[3..4][0];
  }

  /** Whatever is wrong with a frame, decoding raises one exception. */
  lemma DecodeRaises(data: seq<byte>)
    ensures DecodeFrame(data).Failure? ==> DecodeFrame(data) == Failure(ValueError)
  {
    hide FrameOf, BitStruct.Unpack, FromLe;
  }

  lemma PowersOfTwo()
    ensures Pow2(1) == 2 && Pow2(2) == 4 && Pow2(3) == 8 && Pow2(4) == 16
  {
  }

  lemma MessageOctet(f: MatterFrame, flags: Result<seq<byte>>)
    requires flags == BitStruct.Encode(MessageFlags(f)) && flags.Success? && |flags.value| == 1
    ensures flags.value[0] == (if f.destNode.Some? then 1 else if f.destGroup.Some? then 2 else 0)
                              + (if f.source.Some? then 4 else 0) + 16 * (f.version % 16)
  {
    var fs := MessageFlags(f);
    OneOctet(fs, flags);
    hide BitStruct.Pack, BitStruct.Encode, BitStruct.AllFitBytes;
    assert fs == [fs[0], fs[1], fs[2], fs[3]] && fs[2].value == 0 && fs[3].value == f.version;
    hide MessageFlags;
    PackMessage(fs[0], fs[1], fs[2], fs[3]);
    SmallOctet(fs[0].value, fs[1].value, f.version);
  }

  lemma SmallOctet(dest: int, source: int, version: int)
    requires 0 <= dest < 3 && 0 <= source < 2
    ensures (dest % 4 + 4 * (source % 2) + 8 * (0 % 2) + 16 * (version % 16)) % 256
            == dest + 4 * source + 16 * (version % 16)
  {
    var v := version % 16;
    assert 0 <= dest + 4 * source + 16 * v < 256;
  }

  lemma PackMessage(a: BitStruct.Field, b: BitStruct.Field, c: BitStruct.Field, d: BitStruct.Field)
    requires BitStruct.AllFitBytes([a, b, c, d]) && a.width == 2 && b.width == 1 && c.width == 1 && d.width == 4
    ensures BitStruct.Pack([a, b, c, d]) == a.value % 4 + 4 * (b.value % 2) + 8 * (c.value % 2) + 16 * (d.value % 16)
  {
    PowersOfTwo();
    BitStruct.PackNone();
    hide BitStruct.Pack, Pow2;
    assert [a, b, c, d] == [a] + [b, c, d] && [b, c, d] == [b] + [c, d] && [c, d] == [c] + [d] && [d] == [d] + [];
    BitStruct.PackCons(a, [b, c, d], 4);
    BitStruct.PackCons(b, [c, d], 2);
    BitStruct.PackCons(c, [d], 2);
    BitStruct.PackCons(d, [], 16);
    hide BitStruct.AllFitBytes;
  }

  lemma SecurityOctet(f: MatterFrame, security: Result<seq<byte>>)
    requires security == BitStruct.Encode(SecurityFlags(f)) && security.Success? && |security.value| == 1
    ensures security.value[0] == (if f.privacy then 1 else 0) + (if f.control then 2 else 0)
                                 + (if f.extensions.Some? then 4 else 0) + (if f.sessionType.Group? then 64 else 0)
  {
    var fs := SecurityFlags(f);
    OneOctet(fs, security);
    hide BitStruct.Pack, BitStruct.Encode, BitStruct.AllFitBytes;
    assert fs == [fs[0], fs[1], fs[2], fs[3], fs[4]] && fs[3].value == 0;
    PackSecurity(fs[0], fs[1], fs[2], fs[3], fs[4]);
    SmallBits(fs[0].value, fs[1].value, fs[2].value, fs[4].value);
  }

  lemma SmallBits(a: int, b: int, c: int, e: int)
    requires 0 <= a < 2 && 0 <= b < 2 && 0 <= c < 2 && 0 <= e < 2
    ensures (a % 2 + 2 * (b % 2) + 4 * (c % 2) + 8 * (0 % 8) + 64 * (e % 4)) % 256 == a + 2 * b + 4 * c + 64 * e
  {
    assert 0 <= a + 2 * b + 4 * c + 64 * e < 256;
  }

  lemma PackSecurity(a: BitStruct.Field, b: BitStruct.Field, c: BitStruct.Field, d: BitStruct.Field,
                     e: BitStruct.Field)
    requires BitStruct.AllFitBytes([a, b, c, d, e])
    requires a.width == 1 && b.width == 1 && c.width == 1 && d.width == 3 && e.width == 2
    ensures BitStruct.Pack([a, b, c, d, e]) ==
            a.value % 2 + 2 * (b.value % 2) + 4 * (c.value % 2) + 8 * (d.value % 8) + 64 * (e.value % 4)
  {
    PowersOfTwo();
    BitStruct.PackNone();
    hide BitStruct.Pack, Pow2;
    assert [a, b, c, d, e] == [a] + [b, c, d, e] && [b, c, d, e] == [b] + [c, d, e];
    assert [c, d, e] == [c] + [d, e] && [d, e] == [d] + [e] && [e] == [e] + [];
    BitStruct.PackCons(a, [b, c, d, e], 2);
    BitStruct.PackCons(b, [c, d, e], 2);
    BitStruct.PackCons(c, [d, e], 2);
    BitStruct.PackCons(d, [e], 8);
    BitStruct.PackCons(e, [], 4);
    hide BitStruct.AllFitBytes;
  }

  lemma OneOctet(fields: seq<BitStruct.Field>, r: Result<seq<byte>>)
    requires r == BitStruct.Encode(fields) && r.Success? && |r.value| == 1
    ensures BitStruct.AllFitBytes(fields) && r.value[0] == BitStruct.Pack(fields) % 256
  {
    hide BitStruct.Pack, BitStruct.AllFitBytes;
    assert r.value == Le(BitStruct.Pack(fields), 1);
  }

  /** A field of nominally n bytes is read back as it was: it has n bytes, or it is short and ends the frame. */
  predicate Exact(field: seq<byte>, n: nat, rest: seq<byte>) {
    |field| == n || (|field| < n && rest == [])
  }

  lemma ReadField(field: seq<byte>, n: nat, rest: seq<byte>)
    ensures Take(Take(field, n) + rest, n) == field <==> Exact(field, n, rest)
    ensures Exact(field, n, rest) ==> Drop(Take(field, n) + rest, n) == rest
  {
    if |field| > n {
      assert |Take(Take(field, n) + rest, n)| == n;
    } else if |field| < n && rest != [] {
      assert |Take(field + rest, n)| > |field|;
    }
  }

  /** The frames that survive the trip, apart from the header the decoder adds. */
  predicate Canonical(f: MatterFrame) {
    && ExtensionBytes(f.extensions).Success?
    && 0 <= f.version < 16
    && (f.source.Some? ==> Exact(f.source.value, 8, DestBytes(f) + (ExtensionBytes(f.extensions).value + f.payload)))
    && (f.destNode.Some? ==>
        f.destGroup.None? && Exact(f.destNode.value, 8, ExtensionBytes(f.extensions).value + f.payload))
    && (f.destGroup.Some? && f.destNode.None? ==>
        Exact(f.destGroup.value, 2, ExtensionBytes(f.extensions).value + f.payload))
  }

  ghost function BodyRead(f: MatterFrame): BodyFields
    requires ExtensionBytes(f.extensions).Success?
  {
    ReadBody(f.source.Some?, f.destNode.Some?, f.destNode.None? && f.destGroup.Some?, f.extensions.Some?, Body(f))
  }

  lemma DecodesTo(data: seq<byte>, m: seq<Option<nat>>, s: seq<Option<nat>>)
    requires |data| >= 8
    requires BitStruct.Decode(data[0..1], MESSAGE_FLAGS) == Success(m)
             && BitStruct.Decode(data[3..4], SECURITY_FLAGS) == Success(s)
    requires m[0] != Some(3) && (s[4] == Some(0) || s[4] == Some(1))
    ensures |m| == 4 && |s| == 5 && DecodeFrame(data) == Success(FrameOf(m, s, data))
  {
    hide BitStruct.Decode, FrameOf;
  }

  /** The frame read back from the encoding `d`. */
  ghost function ReadBack(f: MatterFrame, d: seq<byte>): MatterFrame
    requires ExtensionBytes(f.extensions).Success? && f.version >= 0
  {
    var b := BodyRead(f);
    MatterFrame(BitStruct.LowBits(f.version, 4), f.sessionId, f.counter, f.privacy, f.control, f.sessionType,
                b.source, b.destGroup, b.destNode, b.extensions, b.payload, Take(d, 8 + b.length))
  }

  lemma FrameOfIs(f: MatterFrame, d: seq<byte>, m: seq<Option<nat>>, s: seq<Option<nat>>)
    requires ExtensionBytes(f.extensions).Success? && f.version >= 0 && |m| == 4 && |s| == 5 && |d| >= 8
    requires m[0] == Some(MessageFlags(f)[0].value) && m[1] == Some(Digit(f.source.Some?))
             && m[3] == Some(BitStruct.LowBits(f.version, 4))
    requires s[0] == Some(Digit(f.privacy)) && s[1] == Some(Digit(f.control)) && s[2] == Some(Digit(f.extensions.Some?))
    requires s[4] == Some(SecurityFlags(f)[4].value)
    requires FromLe(d[1..3]) == f.sessionId && FromLe(d[4..8]) == f.counter && d[8..] == Body(f)
    ensures FrameOf(m, s, d) == ReadBack(f, d)
  {
    hide BitStruct.LowBits, FromLe, Body, ReadBody, ExtensionBytes;
  }

  /** Every field of a decoded encoding. */
  lemma DecodedIs(f: MatterFrame)
    requires EncodeFrame(f).Success?
    ensures f.version >= 0 && DecodeFrame(EncodeFrame(f).value) == Success(ReadBack(f, EncodeFrame(f).value))
  {
    Layout(f, EncodeFrame(f).value, BitStruct.Encode(MessageFlags(f)), BitStruct.Encode(SecurityFlags(f)));
    MessageFlagsRoundTrip(f);
    SecurityFlagsRoundTrip(f);
    FromLeOfLe(f.sessionId, 2);
    FromLeOfLe(f.counter, 4);
    var d := EncodeFrame(f).value;
    var m := BitStruct.Decode(d[0..1], MESSAGE_FLAGS).value;
    var s := BitStruct.Decode(d[3..4], SECURITY_FLAGS).value;
    hide BitStruct.Encode, BitStruct.Decode, BitStruct.LowBits, Le, FromLe, EncodeFrame, EncodeHeader, DecodeFrame;
    hide Body, ReadBack, FrameOf;
    DecodesTo(d, m, s);
    FrameOfIs(f, d, m, s);
  }

  /** The extensions and the payload read back from the end of the body. */
  lemma ReadExtensions(ext: Option<seq<byte>>, payload: seq<byte>)
    requires ExtensionBytes(ext).Success?
    ensures var e := ExtensionBytes(ext).value;
            DecodeExtensions(ext.Some?, e + payload, 0) == (ext, |e|) && Drop(e + payload, |e|) == payload
  {
    var e := ExtensionBytes(ext).value;
    TakeDropOfConcat(e, payload);
    if ext.Some? {
      var l := Le(|ext.value|, 2);
      FromLeOfLe(|ext.value|, 2);
      assert e + payload == l + (ext.value + payload);
      TakeDropOfConcat(l, ext.value + payload);
      TakeDropOfConcat(ext.value, payload);
      assert Drop(e + payload, 0) == e + payload;
    }
  }

  lemma ShiftExtensions(present: bool, data: seq<byte>, i: nat)
    ensures DecodeExtensions(present, data, i).0 == DecodeExtensions(present, Drop(data, i), 0).0
    ensures DecodeExtensions(present, data, i).1 == i + DecodeExtensions(present, Drop(data, i), 0).1
  {
    DropDrop(data, i, 0);
    DropDrop(data, i, 2);
  }

  /** The destination, extensions and payload are read back exactly when the destination id is. */
  lemma DestExactly(f: MatterFrame)
    requires ExtensionBytes(f.extensions).Success?
    ensures var rest := ExtensionBytes(f.extensions).value + f.payload;
            var b := ReadBody(false, f.destNode.Some?, f.destNode.None?
                              && f.destGroup.Some?, f.extensions.Some?, DestBytes(f) + rest);
            (b.destGroup == f.destGroup && b.destNode == f.destNode && b.extensions == f.extensions
             && b.payload == f.payload)
            <==> Canonical(f.(version := 0, source := None))
  {
    hide ExtensionBytes, DecodeExtensions, Le, FromLe;
    var ext := ExtensionBytes(f.extensions).value;
    var b := DestBytes(f) + (ext + f.payload);
    var n := if f.destNode.Some? then 8 else if f.destGroup.Some? then 2 else 0;
    var field := if f.destNode.Some? then f.destNode.value else OrEmpty(f.destGroup);
    assert Drop(b, 0) == b && DestBytes(f) == Take(field, n);
    ReadField(field, n, ext + f.payload);
    if n == 0 || Exact(field, n, ext + f.payload) {
      assert Drop(b, n) == ext + f.payload;
      ReadExtensions(f.extensions, f.payload);
      ShiftExtensions(f.extensions.Some?, b, n);
      DropDrop(b, n, |ext|);
    }
  }

  lemma SourceShift(node: bool, group: bool, hasExt: bool, b: seq<byte>)
    ensures var r := ReadBody(true, node, group, hasExt, b);
            var t := ReadBody(false, node, group, hasExt, Drop(b, 8));
            r == t.(source := Some(Take(b, 8)), length := 8 + t.length)
  {
    var n := if node then 8 else if group then 2 else 0;
    ShiftExtensions(hasExt, b, 8 + n);
    ShiftExtensions(hasExt, Drop(b, 8), n);
    DropDrop(b, 8, n);
    DropDrop(b, 8, 0);
    hide DecodeExtensions;
    DropDrop(b, 8, DecodeExtensions(hasExt, Drop(b, 8), n).1);
    assert Drop(b, 0) == b;
  }

  /** The body is read back exactly when every id in it is. */
  lemma BodyExactly(f: MatterFrame)
    requires ExtensionBytes(f.extensions).Success?
    ensures var b := BodyRead(f);
            (b.source == f.source && b.destGroup == f.destGroup && b.destNode == f.destNode
             && b.extensions == f.extensions && b.payload == f.payload)
            <==> Canonical(f.(version := 0))
  {
    var rest := DestBytes(f) + (ExtensionBytes(f.extensions).value + f.payload);
    DestExactly(f);
    hide ExtensionBytes, ReadBody, DestBytes;
    if f.source.Some? {
      ReadField(f.source.value, 8, rest);
      SourceShift(f.destNode.Some?, f.destNode.None? && f.destGroup.Some?, f.extensions.Some?, Body(f));
    } else {
      assert Body(f) == rest;
    }
  }

  lemma ExtensionsEncoded(f: MatterFrame)
    requires EncodeFrame(f).Success?
    ensures ExtensionBytes(f.extensions).Success?
  {
    hide BitStruct.Encode, ExtensionBytes, Le;
  }

  lemma ReadBackIff(f: MatterFrame, d: seq<byte>)
    requires ExtensionBytes(f.extensions).Success? && f.version >= 0
    ensures ReadBack(f, d).(header := f.header) == f <==> Canonical(f)
  {
    BodyExactly(f);
    BitStruct.CutExactly(f.version, 4);
    SmallPowers();
    CanonicalVersion(f);
    hide BodyRead, Canonical, ExtensionBytes, BitStruct.LowBits, Pow2, Take;
  }

  /**
   A frame that encodes decodes to itself, apart from the recorded header, exactly when its version fits
   four bits, it has at most one destination, and every id has its full length (or is short and last).
   */
  lemma FrameRoundTripIff(f: MatterFrame)
    requires EncodeFrame(f).Success?
    ensures DecodeFrame(EncodeFrame(f).value).Success?
    ensures DecodeFrame(EncodeFrame(f).value).value.(header := f.header) == f <==> Canonical(f)
  {
    DecodedIs(f);
    ExtensionsEncoded(f);
    hide EncodeFrame, DecodeFrame, ReadBack, Canonical, ExtensionBytes;
    ReadBackIff(f, EncodeFrame(f).value);
  }

  const TWO_DESTINATIONS :=
    MatterFrame(0, 1, 2, false, false, Unicast, None, Some([1, 0]), Some([1, 0, 0, 0, 0, 0, 0, 0]), None, [], [])

  /** Of a node id and a group id only the node id is written. */
  lemma TwoDestinations()
    ensures var f := TWO_DESTINATIONS;
            var r := EncodeFrame(f);
            r.Success? && DecodeFrame(r.value).Success?
            && DecodeFrame(r.value).value.(header := f.header) == f.(destGroup := None) != f
  {
    var f := TWO_DESTINATIONS;
    var g := f.(destGroup := None);
    FrameEncodesIff(f);
    FrameEncodesIff(g);
    assert EncodeFrame(f) == EncodeFrame(g);
    FrameRoundTripIff(g);
    FrameRoundTripIff(f);
  }

  lemma CanonicalVersion(f: MatterFrame)
    ensures Canonical(f) <==> 0 <= f.version < 16 && Canonical(f.(version := 0))
  {
  }
}
