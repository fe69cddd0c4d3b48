/** The onboarding codes of a device: Base-38, the QR string and the manual code (matter/device.py). */
module Onboarding {
  import opened Wrappers
  import opened Bytes
  import BitMask
  import BitStruct
  import Verhoeff

  // ---------------------------------------------------------------------- Base-38

  const DIGITS := "0123456789"
  const LETTERS := "ABCDEFGHIJKLMNOPQRSTUVWXYZ"
  const ALPHABET := DIGITS + LETTERS + "-."

  function Pow38(k: nat): (p: int)
    ensures p >= 1
  {
    if k == 0 then 1 else 38 * Pow38(k - 1)
  }

  /** Groups of 1, 2 and 3 octets take 2, 4 and 5 characters. */
  function Width(octets: nat): nat {
    if octets == 3 then 5 else if octets == 2 then 4 else 2
  }

  lemma GroupFits(b: seq<byte>)
    requires 1 <= |b| <= 3
    ensures FromLe(b) < Pow38(Width(|b|))
  {
    FromLeBound(b);
    assert Pow256(1) == 256 && Pow256(2) == 65536 && Pow256(3) == 16777216;
    assert Pow38(2) == 1444 && Pow38(4) == 1444 * 1444;
    assert Pow38(5) == 38 * Pow38(4);
  }

  /** The k base-38 digits of v, least significant first. */
  function Digits(v: nat, k: nat): (s: string)
    ensures |s| == k
  {
    if k == 0 then "" else [ALPHABET[v % 38]] + Digits(v / 38, k - 1)
  }

  function Base38(data: seq<byte>): string
    decreases |data|
  {
    if data == [] then ""
    else var b := Take(data, 3); Digits(FromLe(b), Width(|b|)) + Base38(Drop(data, 3))
  }

  lemma {:induction false} ZeroDigits(k: nat)
    ensures Digits(0, k) == seq(k, i => '0')
  {
    if k > 0 {
      ZeroDigits(k - 1);
    }
  }

  lemma DigitsStep(v0: nat, w: nat, s: string, v: nat)
    requires |s| < w && Digits(v0, w) == s + Digits(v, w - |s|)
    ensures Digits(v0, w) == s + [ALPHABET[v % 38]] + Digits(v / 38, w - |s| - 1)
  {
  }

  lemma OneDigitLess(v: nat, k: nat)
    requires 0 < v < Pow38(k)
    ensures k > 0 && v / 38 < Pow38(k - 1)
  {
  }

  /** The digits of one group until nothing is left, then filled up with zeros on the right. */
  method EncodeGroup(b: seq<byte>) returns (s: string)
    requires 1 <= |b| <= 3
    ensures s == Digits(FromLe(b), Width(|b|))
  {
    hide Digits, FromLe, Pow38;
    var v := FromLe(b);
    ghost var w := Width(|b|);
    GroupFits(b);
    s := "";
    assert "" + Digits(v, w) == Digits(v, w);
    while v != 0
      invariant |s| <= w && 0 <= v < Pow38(w - |s|)
      invariant Digits(FromLe(b), w) == s + Digits(v, w - |s|)
    {
      OneDigitLess(v, w - |s|);
      DigitsStep(FromLe(b), w, s, v);
      var i := v % 38;
      v := v / 38;
      s := s + [ALPHABET[i]];
    }
    ZeroDigits(w - |s|);
    if |s| < Width(|b|) {
      s := s + seq(Width(|b|) - |s|, i => '0');
    }
  }

  lemma SomeTaken(rest: seq<byte>)
    requires rest != []
    ensures 1 <= |Take(rest, 3)| <= 3
  {
  }

  method Base38Encode(data: seq<byte>) returns (output: string)
    ensures output == Base38(data)
  {
    hide Digits, FromLe, Width, Take;
    output := "";
    var i := 0;
    assert Drop(data, 0) == data;
    while i < |data|
      invariant i >= 0
      invariant Base38(data) == output + Base38(Drop(data, i))
    {
      ghost var rest := Drop(data, i);
      DropDrop(data, i, 3);
      var b := Take(Drop(data, i), 3);
      SomeTaken(rest);
      var s := EncodeGroup(b);
      Regroup(output, s, Base38(Drop(data, i + 3)));
      output := output + s;
      i := i + 3;
    }
  }

  function CharValue(c: char): nat {
    if '0' <= c <= '9' then c as int - '0' as int
    else if 'A' <= c <= 'Z' then 10 + c as int - 'A' as int
    else if c == '-' then 36 else 37
  }

  function FromDigits(s: string): nat {
    if s == "" then 0 else CharValue(s[0]) + 38 * FromDigits(s[1..])
  }

  /** The inverse of Base-38: 5, 4 or 2 characters back to 3, 2 or 1 octets. */
  function Base38Decode(s: string): seq<byte> {
    if |s| >= 5 then Le(FromDigits(s[..5]), 3) + Base38Decode(s[5..])
    else if |s| >= 4 then Le(FromDigits(s[..4]), 2)
    else if |s| >= 2 then Le(FromDigits(s[..2]), 1)
    else []
  }

  lemma DigitValues(i: nat)
    requires i < 10
    ensures DIGITS[i] as int == '0' as int + i
  {
  }

  lemma LetterValues(i: nat)
    requires i < 26
    ensures LETTERS[i] as int == 'A' as int + i
  {
    if i < 13 {
      assert LETTERS[..13] == "ABCDEFGHIJKLM" && LETTERS[..13][i] == LETTERS[i];
    } else {
      assert LETTERS[13..] == "NOPQRSTUVWXYZ" && LETTERS[13..][i - 13] == LETTERS[i];
    }
  }

  lemma AlphabetValues(i: nat)
    requires i < 38
    ensures CharValue(ALPHABET[i]) == i
  {
    if i < 10 { DigitValues(i); } else if i < 36 { LetterValues(i - 10); }
  }

  lemma {:induction false} FromDigitsOf(v: nat, k: nat)
    requires v < Pow38(k)
    ensures FromDigits(Digits(v, k)) == v
  {
    if k > 0 {
      FromDigitsOf(v / 38, k - 1);
      AlphabetValues(v % 38);
      hide CharValue;
      assert Digits(v, k)[1..] == Digits(v / 38, k - 1);
    }
  }

  lemma GroupRoundTrip(b: seq<byte>)
    requires 1 <= |b| <= 3
    ensures Le(FromDigits(Digits(FromLe(b), Width(|b|))), |b|) == b
  {
    GroupFits(b);
    FromDigitsOf(FromLe(b), Width(|b|));
    LeOfFromLe(b);
  }

  /** Base-38 is invertible on every octet string. */
  lemma {:induction false} Base38RoundTrip(data: seq<byte>)
    ensures Base38Decode(Base38(data)) == data
  {
    if data != [] {
      var b := Take(data, 3);
      var s := Digits(FromLe(b), Width(|b|));
      GroupRoundTrip(b);
      hide FromDigits, Digits, FromLe, Le;
      if |data| >= 3 {
        Base38RoundTrip(Drop(data, 3));
        assert (s + Base38(Drop(data, 3)))[..5] == s && (s + Base38(Drop(data, 3)))[5..] == Base38(Drop(data, 3));
        assert b + Drop(data, 3) == data;
      } else {
        assert Base38(data) == s + "" == s && b == data;
        assert s[..|s|] == s;
      }
    }
  }

  // ---------------------------------------------------------------------- QR string

  datatype CustomFlow = Standard | UserIntent | Custom

  datatype Capabilities = Capabilities(ble: bool, onIpNetwork: bool, wifiPublicActionFrame: bool, nfc: bool)

  datatype QrData = QrData(vendorId: int, productId: int, flow: CustomFlow, capabilities: Capabilities,
                           discriminator: int, passcode: int)

  function FlowValue(f: CustomFlow): nat {
    match f case Standard => 0 case UserIntent => 1 case Custom => 2
  }

  /** Bits 1 to 4 of one octet. */
  function CapabilityFlags(c: Capabilities): seq<BitMask.Flag> {
    [BitMask.Flag(1, c.ble), BitMask.Flag(2, c.onIpNetwork), BitMask.Flag(3, c.wifiPublicActionFrame),
     BitMask.Flag(4, c.nfc)]
  }

  function Mask(c: Capabilities): byte {
    BitMask.OctetBits(CapabilityFlags(c));
    BitMask.Encode(1, CapabilityFlags(c)).value[0]
  }

  const QR_SLOTS := [BitStruct.Slot(3, false), BitStruct.Slot(16, true), BitStruct.Slot(16, true),
                     BitStruct.Slot(2, true),
                     BitStruct.Slot(8, true), BitStruct.Slot(12, true), BitStruct.Slot(27, true),
                     BitStruct.Slot(4, false)]

  function QrFields(q: QrData): seq<BitStruct.Field> {
    [BitStruct.Field(3, 0), BitStruct.Field(16, q.vendorId), BitStruct.Field(16, q.productId),
     BitStruct.Field(2, FlowValue(q.flow)),
     BitStruct.Field(8, Mask(q.capabilities)), BitStruct.Field(12, q.discriminator), BitStruct.Field(27, q.passcode),
     BitStruct.Field(4, 0)]
  }

  function QrString(q: QrData): Result<string> {
    var data :- BitStruct.Encode(QrFields(q));
    Success("MT:" + Base38(data))
  }

  /** The string of a device: standard flow, discovered on the IP network. */
  function DeviceQr(vendorId: int, productId: int, discriminator: int, passcode: int): Result<string> {
    QrString(QrData(vendorId, productId, Standard, Capabilities(false, true, false, false), discriminator, passcode))
  }

  /** The data with every number cut to its field. */
  function Cut(q: QrData): QrData
    requires NonNegative(q)
  {
    q.(vendorId := BitStruct.LowBits(q.vendorId, 16), productId := BitStruct.LowBits(q.productId, 16),
       discriminator := BitStruct.LowBits(q.discriminator, 12), passcode := BitStruct.LowBits(q.passcode, 27))
  }

  predicate NonNegative(q: QrData) {
    q.vendorId >= 0 && q.productId >= 0 && q.discriminator >= 0 && q.passcode >= 0
  }

  function Fitting(width: nat, x: int): (r: bool) {
    BitStruct.FitsBytes(BitStruct.Field(width, x))
  }

  lemma SmallFits(width: nat, x: nat)
    requires x < Pow2(width)
    ensures Fitting(width, x) && BitStruct.LowBits(x, width) == x
  {
    BitStruct.WithinWidthFits(BitStruct.Field(width, x));
    BitStruct.CutExactly(x, width);
  }

  lemma SmallPowers()
    ensures Pow2(2) == 4 && Pow2(3) == 8 && Pow2(4) == 16 && Pow2(8) == 256
  {
    assert Pow2(4) == 16;
  }

  /** The numbers fit the whole octets they are first written to. */
  predicate Encodable(q: QrData) {
    0 <= q.vendorId < 0x1_0000 && 0 <= q.productId < 0x1_0000 && 0 <= q.discriminator < 0x1_0000
      && 0 <= q.passcode < 0x1_0000_0000
  }

  lemma EightFields(f: seq<BitStruct.Field>)
    requires |f| == 8
    ensures BitStruct.AllFitBytes(f) <==>
            && BitStruct.FitsBytes(f[0]) && BitStruct.FitsBytes(f[1]) && BitStruct.FitsBytes(f[2])
            && BitStruct.FitsBytes(f[3]) && BitStruct.FitsBytes(f[4]) && BitStruct.FitsBytes(f[5])
            && BitStruct.FitsBytes(f[6]) && BitStruct.FitsBytes(f[7])
  {
    hide BitStruct.FitsBytes;
  }

  lemma ConstantsFit(q: QrData)
    ensures Fitting(3, 0) && Fitting(2, FlowValue(q.flow)) && Fitting(8, Mask(q.capabilities)) && Fitting(4, 0)
  {
    SmallPowers();
    assert FlowValue(q.flow) < 4 && Mask(q.capabilities) < 256;
    hide Pow2, FlowValue, Mask, Fitting;
    SmallFits(3, 0);
    SmallFits(2, FlowValue(q.flow));
    SmallFits(8, Mask(q.capabilities));
    SmallFits(4, 0);
  }

  /** The string exists exactly for such data. */
  lemma EncodesIff(q: QrData)
    ensures QrString(q).Success? <==> Encodable(q)
  {
    hide BitStruct.FitsBytes, BitStruct.AllFitBytes, BitStruct.Pack, BitStruct.TotalBits, Base38, FlowValue, Mask, Le;
    EightFields(QrFields(q));
    ConstantsFit(q);
    FitsTwo(q.vendorId, 16);
    FitsTwo(q.productId, 16);
    FitsTwo(q.discriminator, 12);
    FitsFour(q.passcode);
  }

  lemma FitsTwo(x: int, width: nat)
    requires 8 < width <= 16
    ensures Fitting(width, x) <==> 0 <= x < 0x1_0000
  {
    Pow256Values();
    hide Pow256;
  }

  lemma FitsFour(x: int)
    ensures Fitting(27, x) <==> 0 <= x < 0x1_0000_0000
  {
    Pow256Values();
    hide Pow256;
  }

  /** The values of the fields, each cut to its width. */
  function Read(q: QrData): seq<Option<nat>>
    requires NonNegative(q)
  {
    hide Mask, FlowValue, BitStruct.LowBits;
    [None, Some(BitStruct.LowBits(q.vendorId, 16)), Some(BitStruct.LowBits(q.productId, 16)), Some(FlowValue(q.flow)),
     Some(Mask(q.capabilities)), Some(BitStruct.LowBits(q.discriminator, 12)), Some(BitStruct.LowBits(q.passcode, 27)),
     None]
  }

  lemma FieldValues(q: QrData)
    requires BitStruct.AllFitBytes(QrFields(q))
    ensures NonNegative(q) && BitStruct.Values(QrFields(q), QR_SLOTS) == Read(q)
  {
    hide Mask;
    SmallPowers();
    SmallFits(2, FlowValue(q.flow));
    SmallFits(8, Mask(q.capabilities));
    var f := QrFields(q);
    assert BitStruct.FitsBytes(f[1]) && BitStruct.FitsBytes(f[2]) && BitStruct.FitsBytes(f[5])
           && BitStruct.FitsBytes(f[6]);
    hide BitStruct.LowBits, FlowValue, Pow2, Pow256;
  }

  lemma QrStringIs(q: QrData)
    requires Encodable(q)
    ensures BitStruct.Encode(QrFields(q)).Success? && QrString(q).Success? && |QrString(q).value| >= 3
    ensures QrString(q).value[3..] == Base38(BitStruct.Encode(QrFields(q)).value)
  {
    EncodesIff(q);
    hide BitStruct.Encode, Base38, QrFields, Encodable;
    var data := BitStruct.Encode(QrFields(q)).value;
    assert ("MT:" + Base38(data))[3..] == Base38(data);
  }

  /** What the unpacker reads from the decoded string. */
  lemma QrReadBack(q: QrData)
    requires Encodable(q)
    ensures QrString(q).Success? && |QrString(q).value| >= 3
    ensures BitStruct.Decode(Base38Decode(QrString(q).value[3..]), QR_SLOTS) == Success(Read(q))
  {
    QrStringIs(q);
    var fields := QrFields(q);
    hide Mask, FlowValue, Read, QrString, Base38, Base38Decode, BitStruct.Decode, BitStruct.Pack, BitStruct.LowBits;
    hide BitStruct.TotalBits, BitStruct.FitsBytes, BitStruct.Values;
    var data := BitStruct.Encode(fields).value;
    FieldValues(q);
    Base38RoundTrip(data);
    BitStruct.RoundTrip(fields, QR_SLOTS, []);
    assert data + [] == data;
  }

  lemma MaskInjective(a: Capabilities, b: Capabilities)
    requires Mask(a) == Mask(b)
    ensures a == b
  {
    var f, g := CapabilityFlags(a), CapabilityFlags(b);
    BitMask.OctetBits(f);
    BitMask.OctetBits(g);
    hide BitStruct.Bit, BitMask.Encode;
    forall i | 0 <= i < 4 ensures f[i].value == g[i].value {
      assert f[i].position == g[i].position;
      assert BitStruct.Bit(Mask(a), f[i].position) == f[i].value && BitStruct.Bit(Mask(b), g[i].position) == g[i].value;
    }
    assert f[0].value == g[0].value && f[1].value == g[1].value && f[2].value == g[2].value && f[3].value == g[3].value;
  }

  lemma SamePack(x: QrData, y: QrData)
    requires Encodable(x) && Encodable(y) && Cut(x) == Cut(y)
    ensures QrString(x) == QrString(y)
  {
    EncodesIff(x);
    EncodesIff(y);
    var f, g := QrFields(x), QrFields(y);
    hide BitStruct.LowBits, Base38, FlowValue, Mask, BitStruct.FitsBytes, Le;
    PackCut(f, g);
  }

  /** Packing looks only at each value cut to its width. */
  lemma {:induction false} PackCut(f: seq<BitStruct.Field>, g: seq<BitStruct.Field>)
    requires |f| == |g| && BitStruct.AllFitBytes(f) && BitStruct.AllFitBytes(g)
    requires forall i | 0 <= i < |f| ::
               && f[i].width == g[i].width && BitStruct.FitsBytes(f[i]) && BitStruct.FitsBytes(g[i])
               && BitStruct.LowBits(f[i].value, f[i].width) == BitStruct.LowBits(g[i].value, g[i].width)
    ensures BitStruct.Pack(f) == BitStruct.Pack(g) && BitStruct.TotalBits(f) == BitStruct.TotalBits(g)
  {
    hide BitStruct.LowBits;
    if f != [] {
      PackCut(f[1..], g[1..]);
    }
  }

  lemma ReadInjective(x: QrData, y: QrData)
    requires NonNegative(x) && NonNegative(y) && Read(x) == Read(y)
    ensures Cut(x) == Cut(y)
  {
    var a, b := Read(x), Read(y);
    assert a[1] == b[1] && a[2] == b[2] && a[3] == b[3] && a[4] == b[4] && a[5] == b[5] && a[6] == b[6];
    MaskInjective(x.capabilities, y.capabilities);
    hide BitStruct.LowBits, Mask;
  }

  /** Two onboarding data give the same string exactly when they agree after cutting every number to its field. */
  lemma QrSameIff(x: QrData, y: QrData)
    requires Encodable(x) && Encodable(y)
    ensures QrString(x).Success? && QrString(y).Success?
    ensures QrString(x) == QrString(y) <==> Cut(x) == Cut(y)
  {
    hide QrString, BitStruct.LowBits, BitStruct.Decode, Base38Decode, Read, Cut;
    EncodesIff(x);
    EncodesIff(y);
    QrReadBack(x);
    QrReadBack(y);
    if QrString(x) == QrString(y) { ReadInjective(x, y); }
    if Cut(x) == Cut(y) { SamePack(x, y); }
  }

  /** A 16-bit vendor and product, a 12-bit discriminator and a 27-bit passcode are all determined by the string. */
  lemma QrDetermines(x: QrData, y: QrData)
    requires InRange(x) && InRange(y)
    ensures QrString(x).Success? && QrString(y).Success?
    ensures QrString(x) == QrString(y) ==> x == y
  {
    hide Pow2, BitStruct.LowBits, QrString;
    InRangeEncodes(x);
    InRangeEncodes(y);
    EncodesIff(x);
    EncodesIff(y);
    QrSameIff(x, y);
    InRangeCut(x);
    InRangeCut(y);
  }

  /** So a device's string determines its vendor, product, discriminator and passcode. */
  lemma DeviceQrDetermines(x: QrData, y: QrData)
    requires InRange(x) && InRange(y)
    ensures DeviceQr(x.vendorId, x.productId, x.discriminator, x.passcode)
            == DeviceQr(y.vendorId, y.productId, y.discriminator, y.passcode)
            <==> x.vendorId == y.vendorId && x.productId == y.productId && x.discriminator == y.discriminator
                 && x.passcode == y.passcode
  {
    var c := Capabilities(false, true, false, false);
    hide QrString;
    QrDetermines(x.(flow := Standard, capabilities := c), y.(flow := Standard, capabilities := c));
  }

  predicate InRange(q: QrData) {
    0 <= q.vendorId < Pow2(16) && 0 <= q.productId < Pow2(16) && 0 <= q.discriminator < Pow2(12)
      && 0 <= q.passcode < Pow2(27)
  }

  lemma InRangeCut(q: QrData)
    requires InRange(q)
    ensures Cut(q) == q
  {
    hide Pow2, BitStruct.LowBits;
    BitStruct.CutExactly(q.vendorId, 16);
    BitStruct.CutExactly(q.productId, 16);
    BitStruct.CutExactly(q.discriminator, 12);
    BitStruct.CutExactly(q.passcode, 27);
  }

  lemma InRangeEncodes(q: QrData)
    requires InRange(q)
    ensures QrString(q).Success?
  {
    var f := QrFields(q);
    SmallPowers();
    hide Pow2, Pow256, BitStruct.LowBits, BitStruct.FitsBytes, BitStruct.Pack, BitStruct.TotalBits, Base38, FlowValue;
    hide Mask, Le;
    FieldsInRange(q);
    forall i | 0 <= i < 8 ensures BitStruct.FitsBytes(f[i]) {
      BitStruct.WithinWidthFits(f[i]);
    }
  }

  lemma FieldsInRange(q: QrData)
    requires InRange(q)
    ensures var f := QrFields(q); forall i | 0 <= i < 8 :: 0 <= f[i].value < Pow2(f[i].width)
  {
    SmallPowers();
    hide Mask;
    assert FlowValue(q.flow) < 4 && 0 <= Mask(q.capabilities) < 256;
    hide Pow2, FlowValue;
  }

  // ---------------------------------------------------------------------- manual code

  function Pow10(k: nat): (p: int)
    ensures p >= 1
  {
    if k == 0 then 1 else 10 * Pow10(k - 1)
  }

  /** `str(n)`. */
  function Decimal(n: nat): (s: string)
    ensures Verhoeff.AllDigits(s) && |s| >= 1
  {
    var last := [Verhoeff.DigitChar(n % 10)];
    if n < 10 then last else Decimal(n / 10) + last
  }

  /** An integer formatted with `:0k`: zeros on the left up to k characters. */
  function Padded(n: nat, k: nat): (s: string)
    ensures Verhoeff.AllDigits(s) && |s| >= k
  {
    var s := Decimal(n);
    if |s| < k then seq(k - |s|, i => '0') + s else s
  }

  function Number(s: string): nat
    requires Verhoeff.AllDigits(s)
  {
    if s == "" then 0 else 10 * Number(s[..|s| - 1]) + Verhoeff.Value(s[|s| - 1])
  }

  lemma {:induction false} DecimalFits(n: nat, k: nat)
    requires n < Pow10(k) && k > 0
    ensures |Decimal(n)| <= k
  {
    if n >= 10 {
      DecimalFits(n / 10, k - 1);
    }
  }

  lemma {:induction false} NumberOfDecimal(n: nat)
    ensures Number(Decimal(n)) == n
  {
    var last := [Verhoeff.DigitChar(n % 10)];
    if n < 10 {
      assert last[..0] == "";
    } else {
      NumberOfDecimal(n / 10);
      assert (Decimal(n / 10) + last)[..|Decimal(n / 10)|] == Decimal(n / 10);
    }
  }

  lemma {:induction false} LeadingZeros(j: nat, s: string)
    requires Verhoeff.AllDigits(s)
    ensures Verhoeff.AllDigits(seq(j, i => '0') + s) && Number(seq(j, i => '0') + s) == Number(s)
    decreases |s|, j
  {
    var z := seq(j, i => '0');
    if s != "" {
      LeadingZeros(j, s[..|s| - 1]);
      assert (z + s)[..|z + s| - 1] == z + s[..|s| - 1];
    } else if j > 0 {
      LeadingZeros(j - 1, s);
      assert (z + s)[..j - 1] == seq(j - 1, i => '0') + s;
    }
  }

  lemma PaddedReads(n: nat, k: nat)
    requires n < Pow10(k) && k > 0
    ensures |Padded(n, k)| == k && Number(Padded(n, k)) == n
  {
    DecimalFits(n, k);
    NumberOfDecimal(n);
    if |Decimal(n)| < k { LeadingZeros(k - |Decimal(n)|, Decimal(n)); }
  }

  /** Discriminator bits 8 and 9 above the passcode's low 14 bits. */
  function Packed(discriminator: nat, passcode: nat): nat {
    discriminator / 256 % 4 * 16384 + passcode % 16384
  }

  /**
   The three groups of digits: discriminator bits 10 and 11; bits 8 and 9 above the passcode's low 14 bits; the
   rest.
   */
  function ManualDigits(discriminator: nat, passcode: nat): (s: string)
    ensures Verhoeff.AllDigits(s)
  {
    Decimal(discriminator / 1024) + Padded(Packed(discriminator, passcode), 5) + Padded(passcode / 16384, 4)
  }

  function Hyphenated(v: string): string
    requires |v| >= 7
  {
    v[0..4] + "-" + v[4..7] + "-" + Take(v[7..], 4)
  }

  method ManualDiscoveryString(discriminator: nat, passcode: nat) returns (s: string)
    requires discriminator < 4096 && passcode < 0x800_0000
    ensures exists check: char :: Verhoeff.Valid(ManualDigits(discriminator, passcode) + [check])
              && |ManualDigits(discriminator, passcode)| == 10
              && s == Hyphenated(ManualDigits(discriminator, passcode) + [check])
  {
    ManualLength(discriminator, passcode);
    hide Decimal, Padded, Verhoeff.Valid, Number, Packed;
    var v := Decimal(discriminator / 1024) + Padded(Packed(discriminator, passcode), 5) + Padded(passcode / 16384, 4);
    var check := Verhoeff.CalcCheckDigit(v);
    assert Verhoeff.Valid(v + [check.value[0]]);
    v := v + check.value;
    s := v[0..4] + "-" + v[4..7] + "-" + v[7..11];
  }

  lemma ManualLength(discriminator: nat, passcode: nat)
    requires discriminator < 4096 && passcode < 0x800_0000
    ensures discriminator / 1024 == discriminator / 256 / 4
    ensures |Decimal(discriminator / 1024)| == 1 && Number(Decimal(discriminator / 1024)) == discriminator / 1024
    ensures var n := Packed(discriminator, passcode); |Padded(n, 5)| == 5 && Number(Padded(n, 5)) == n
    ensures |Padded(passcode / 16384, 4)| == 4 && Number(Padded(passcode / 16384, 4)) == passcode / 16384
  {
    assert Pow10(5) == 100000 && Pow10(4) == 10000;
    NumberOfDecimal(discriminator / 1024);
    PaddedReads(Packed(discriminator, passcode), 5);
    PaddedReads(passcode / 16384, 4);
  }

  lemma Parts(a: string, b: string, c: string)
    requires |a| == 1 && |b| == 5
    ensures var s := a + b + c; s[..1] == a && s[1..6] == b && s[6..] == c
  {
  }

  /** Two manual codes agree exactly when the passcodes and the discriminators' top four bits do. */
  lemma ManualSameIff(d: nat, p: nat, e: nat, q: nat)
    requires d < 4096 && e < 4096 && p < 0x800_0000 && q < 0x800_0000
    ensures ManualDigits(d, p) == ManualDigits(e, q) <==> d / 256 == e / 256 && p == q
  {
    ManualLength(d, p);
    ManualLength(e, q);
    var m, n := Packed(d, p), Packed(e, q);
    Parts(Decimal(d / 1024), Padded(m, 5), Padded(p / 16384, 4));
    Parts(Decimal(e / 1024), Padded(n, 5), Padded(q / 16384, 4));
    SameDigits(d / 256, p % 16384, e / 256, q % 16384);
    SplitAt(p, q, 16384);
    hide Decimal, Padded, Number, Packed;
  }

  lemma SplitAt(p: nat, q: nat, k: nat)
    requires k > 0
    ensures p == q <==> p / k == q / k && p % k == q % k
  {
    assert p == k * (p / k) + p % k && q == k * (q / k) + q % k;
  }

  lemma SameDigits(a: nat, p: nat, b: nat, q: nat)
    requires p < 16384 && q < 16384
    ensures (a / 4 == b / 4 && a % 4 * 16384 + p == b % 4 * 16384 + q) <==> a == b && p == q
  {
  }

  lemma Unhyphenated(v: string)
    requires |v| == 11
    ensures |Hyphenated(v)| == 13 && v == Hyphenated(v)[..4] + Hyphenated(v)[5..8] + Hyphenated(v)[9..]
  {
    var h := Hyphenated(v);
    assert h[..4] == v[..4] && h[5..8] == v[4..7] && h[9..] == v[7..];
  }

  lemma HyphenatedInjective(v: string, w: string)
    requires |v| == 11 && |w| == 11 && Hyphenated(v) == Hyphenated(w)
    ensures v == w
  {
    Unhyphenated(v);
    Unhyphenated(w);
    hide Hyphenated;
  }

  /**
   The printed manual code, check digit and hyphens included, is the same for two devices exactly when their
   passcodes and the top four bits of their discriminators are.
   */
  lemma ManualCodeSameIff(d: nat, p: nat, check: char, e: nat, q: nat, other: char)
    requires d < 4096 && e < 4096 && p < 0x800_0000 && q < 0x800_0000
    requires Verhoeff.Valid(ManualDigits(d, p) + [check]) && Verhoeff.Valid(ManualDigits(e, q) + [other])
    ensures |ManualDigits(d, p)| == |ManualDigits(e, q)| == 10
    ensures Hyphenated(ManualDigits(d, p) + [check]) == Hyphenated(ManualDigits(e, q) + [other]) <==>
            d / 256 == e / 256 && p == q
  {
    ManualLength(d, p);
    ManualLength(e, q);
    ManualSameIff(d, p, e, q);
    var s, t := ManualDigits(d, p), ManualDigits(e, q);
    hide Hyphenated, Verhoeff.Valid, Decimal, Padded, Number, Packed;
    assert |s| == 10 && |t| == 10;
    hide ManualDigits;
    if Hyphenated(s + [check]) == Hyphenated(t + [other]) {
      HyphenatedInjective(s + [check], t + [other]);
      assert (s + [check])[..10] == s && (t + [other])[..10] == t;
    }
    if s == t && check != other {
      assert (s + [check])[10 := other] == t + [other];
      Verhoeff.SingleChangeDetected(s + [check], 10, other);
    }
  }
}
