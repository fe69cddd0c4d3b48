/** The onboarding codes digit by digit and bit by bit (section 5.1 of the Matter Core Specification). */
module OnboardingWire {
  import opened Wrappers
  import opened Bytes
  import opened Onboarding
  import BitMask
  import BitStruct
  import Verhoeff

  // ---------------------------------------------------------------------- manual code

  function DigitAt(n: nat): char
    requires n < 10
  {
    "0123456789"[n]
  }

  lemma TenSplit(a: nat, v: nat, n: nat)
    requires n == 10 * a + v && v < 10
    ensures n % 10 == v && n / 10 == a
  {
  }

  /** The last digit of a number, and the rest. */
  lemma LastDigit(s: string, n: nat)
    requires s != "" && Verhoeff.AllDigits(s) && Number(s) == n
    ensures s[|s| - 1] == DigitAt(n % 10) && Verhoeff.AllDigits(s[..|s| - 1]) && Number(s[..|s| - 1]) == n / 10
  {
    NumberLast(s);
    hide Number;
    var v := Verhoeff.Value(s[|s| - 1]);
    TenSplit(Number(s[..|s| - 1]), v, n);
    assert s[|s| - 1] == Verhoeff.DigitChar(v);
  }

  lemma NumberLast(s: string)
    requires s != "" && Verhoeff.AllDigits(s)
    ensures Verhoeff.AllDigits(s[..|s| - 1]) && Verhoeff.IsDigit(s[|s| - 1])
    ensures Number(s) == 10 * Number(s[..|s| - 1]) + Verhoeff.Value(s[|s| - 1])
  {
  }

  lemma OneDigit(s: string, n: nat)
    requires |s| == 1 && Verhoeff.AllDigits(s) && Number(s) == n
    ensures n < 10 && s == [DigitAt(n)]
  {
    LastDigit(s, n);
    assert s[..0] == "" && Number("") == 0;
  }

  lemma FourDigits(s: string, n: nat)
    requires |s| == 4 && Verhoeff.AllDigits(s) && Number(s) == n
    ensures n < 10000
    ensures s == [DigitAt(n / 1000), DigitAt(n / 100 % 10), DigitAt(n / 10 % 10), DigitAt(n % 10)]
  {
    hide Number, DigitAt;
    LastDigit(s, n);
    LastDigit(s[..3], n / 10);
    LastDigit(s[..3][..2], n / 10 / 10);
    assert s[..3][..2][..1] == s[..1] && s[..3][2] == s[2] && s[..3][..2][1] == s[1];
    OneDigit(s[..1], n / 10 / 10 / 10);
    assert n / 10 / 10 == n / 100 && n / 10 / 10 / 10 == n / 1000;
  }

  /**
   The ten digits of the manual code: the discriminator's top two bits; in five digits its next two above the low 14
   bits of the passcode; in four digits the passcode's upper bits.
   */
  lemma ManualDigitsAre(discriminator: nat, passcode: nat)
    requires discriminator < 4096 && passcode < 0x800_0000
    ensures var m := discriminator / 0x100 % 4 * 0x4000 + passcode % 0x4000;
            var n := passcode / 0x4000;
            && m < 100000 && n < 10000
            && ManualDigits(discriminator, passcode) ==
               [DigitAt(discriminator / 0x400)]
                 + [DigitAt(m / 10000), DigitAt(m / 1000 % 10), DigitAt(m / 100 % 10), DigitAt(m / 10 % 10),
                    DigitAt(m % 10)]
                 + [DigitAt(n / 1000), DigitAt(n / 100 % 10), DigitAt(n / 10 % 10), DigitAt(n % 10)]
  {
    var m, n := Packed(discriminator, passcode), passcode / 0x4000;
    ManualLength(discriminator, passcode);
    hide Number, Decimal, Padded, DigitAt;
    OneDigit(Decimal(discriminator / 0x400), discriminator / 0x400);
    FiveDigits(Padded(m, 5), m);
    FourDigits(Padded(n, 4), n);
  }

  lemma FiveDigits(s: string, m: nat)
    requires |s| == 5 && Verhoeff.AllDigits(s) && Number(s) == m
    ensures m < 100000
    ensures s == [DigitAt(m / 10000), DigitAt(m / 1000 % 10), DigitAt(m / 100 % 10), DigitAt(m / 10 % 10),
                  DigitAt(m % 10)]
  {
    hide Number, DigitAt;
    LastDigit(s, m);
    FourDigits(s[..4], m / 10);
    assert m / 10 / 1000 == m / 10000 && m / 10 / 100 == m / 1000 && m / 10 / 10 == m / 100;
  }

  // ---------------------------------------------------------------------- QR code

  /** The numbers of the commissioning flows. */
  lemma FlowsAre()
    ensures FlowValue(Standard) == 0 && FlowValue(UserIntent) == 1 && FlowValue(Custom) == 2
  {
  }

  /** The octet of the capabilities, bit by bit. */
  lemma MaskBits(c: Capabilities, i: nat)
    requires i < 8
    ensures BitStruct.Bit(Mask(c), i) <==>
            (i == 1 && c.ble) || (i == 2 && c.onIpNetwork) || (i == 3 && c.wifiPublicActionFrame) || (i == 4 && c.nfc)
  {
    var flags := CapabilityFlags(c);
    BitMask.OctetBits(flags);
    assert flags[0].position == 1 && flags[1].position == 2 && flags[2].position == 3 && flags[3].position == 4;
    hide BitStruct.Bit, BitMask.Encode;
    if i == 0 || i > 4 { BitMask.OtherBits(flags, i); }
  }

  /**
   The 11 octets of the QR code as one number: from bit 3 on the vendor, from 19 the product, from 35 the flow, from
   37 the capabilities, from 45 the discriminator, from 57 the passcode; the bits around them are zero.
   */
  lemma QrNumber(q: QrData)
    requires InRange(q)
    ensures BitStruct.Encode(QrFields(q)).Success?
    ensures var data := BitStruct.Encode(QrFields(q)).value;
            && |data| == 11 && QrString(q) == Success("MT:" + Base38(data))
            && FromLe(data) == 0x8 * q.vendorId + 0x8_0000 * q.productId + 0x8_0000_0000 * FlowValue(q.flow)
                               + 0x20_0000_0000 * Mask(q.capabilities) + 0x2000_0000_0000 * q.discriminator
                               + 0x200_0000_0000_0000 * q.passcode
  {
    InRangeEncodes(q);
    var fs := QrFields(q);
    EightWidths(fs);
    ElevenOctets(fs);
    hide BitStruct.Pack, BitStruct.TotalBits, FromLe, Base38, Mask, FlowValue, Pow2, BitStruct.Encode;
    FlowAndMask(q);
    PowersAgain(q);
    PackHead(fs);
    PackTail(fs[4..]);
    hide BitStruct.AllFitBytes;
  }

  lemma PowersAgain(q: QrData)
    requires InRange(q)
    ensures 0 <= q.vendorId < 0x1_0000 && 0 <= q.productId < 0x1_0000 && 0 <= q.discriminator < 0x1000
    ensures 0 <= q.passcode < 0x800_0000
  {
    WidthPowers();
    hide Pow2;
  }

  lemma ElevenOctets(fs: seq<BitStruct.Field>)
    requires BitStruct.TotalBits(fs) == 88 && BitStruct.Encode(fs).Success?
    ensures BitStruct.AllFitBytes(fs)
    ensures |BitStruct.Encode(fs).value| == 11 && FromLe(BitStruct.Encode(fs).value) == BitStruct.Pack(fs)
  {
    BitStruct.PackBound(fs);
    Pow256IsPow2(11);
    hide BitStruct.Pack, FromLe, Le, Pow2, Pow256;
    FromLeOfLe(BitStruct.Pack(fs), 11);
  }

  lemma FlowAndMask(q: QrData)
    ensures 0 <= FlowValue(q.flow) < 4 && 0 <= Mask(q.capabilities) < 256
  {
    hide Mask;
  }

  lemma WidthPowers()
    ensures Pow2(2) == 4 && Pow2(3) == 8 && Pow2(4) == 16 && Pow2(8) == 0x100 && Pow2(12) == 0x1000
    ensures Pow2(16) == 0x1_0000 && Pow2(27) == 0x800_0000
  {
    Pow2Add(8, 4);
    Pow2Add(8, 8);
    Pow2Add(16, 8);
    Pow2Add(24, 3);
    assert Pow2(3) == 8 && Pow2(4) == 16 && Pow2(8) == 256;
    hide Pow2;
  }

  predicate QrWidths(fs: seq<BitStruct.Field>) {
    && |fs| == 8 && fs[0].width == 3 && fs[1].width == 16 && fs[2].width == 16 && fs[3].width == 2
    && fs[4].width == 8 && fs[5].width == 12 && fs[6].width == 27 && fs[7].width == 4
  }

  lemma EightWidths(fs: seq<BitStruct.Field>)
    requires QrWidths(fs)
    ensures BitStruct.TotalBits(fs) == 88
  {
    BitStruct.TotalBitsOf(fs[4..]);
    assert fs[1..][1..] == fs[2..] && fs[2..][1..] == fs[3..] && fs[3..][1..] == fs[4..];
    assert fs[1..][0] == fs[1] && fs[2..][0] == fs[2] && fs[3..][0] == fs[3];
    assert BitStruct.TotalBits(fs) == 3 + BitStruct.TotalBits(fs[1..]);
    assert BitStruct.TotalBits(fs[1..]) == 16 + BitStruct.TotalBits(fs[2..]);
    assert BitStruct.TotalBits(fs[2..]) == 16 + BitStruct.TotalBits(fs[3..]);
    assert BitStruct.TotalBits(fs[3..]) == 2 + BitStruct.TotalBits(fs[4..]);
  }

  /** A field whose value lies within its width. */
  lemma PackWithin(f: BitStruct.Field, rest: seq<BitStruct.Field>, p: int)
    requires BitStruct.AllFitBytes([f] + rest) && p == Pow2(f.width) && 0 <= f.value < p
    ensures BitStruct.AllFitBytes(rest) && BitStruct.Pack([f] + rest) == f.value + p * BitStruct.Pack(rest)
  {
    hide BitStruct.Pack, Pow2, BitStruct.AllFitBytes;
    Below(f.value, p);
    BitStruct.PackCons(f, rest, p);
  }

  lemma Below(v: int, p: int)
    requires 0 <= v < p
    ensures v % p == v
  {
  }

  /** The first four fields in front of the others. */
  lemma PackHead(fs: seq<BitStruct.Field>)
    requires QrWidths(fs) && BitStruct.AllFitBytes(fs) && fs[0].value == 0
    requires 0 <= fs[1].value < 0x1_0000 && 0 <= fs[2].value < 0x1_0000 && 0 <= fs[3].value < 4
    ensures BitStruct.AllFitBytes(fs[4..])
    ensures BitStruct.Pack(fs) == 0x8 * fs[1].value + 0x8_0000 * fs[2].value + 0x8_0000_0000 * fs[3].value
                                  + 0x20_0000_0000 * BitStruct.Pack(fs[4..])
  {
    WidthPowers();
    hide BitStruct.Pack, Pow2, BitStruct.AllFitBytes;
    assert fs == [fs[0]] + fs[1..] && fs[1..] == [fs[1]] + fs[2..] && fs[2..] == [fs[2]] + fs[3..];
    assert fs[3..] == [fs[3]] + fs[4..];
    PackWithin(fs[0], fs[1..], 0x8);
    PackWithin(fs[1], fs[2..], 0x1_0000);
    PackWithin(fs[2], fs[3..], 0x1_0000);
    PackWithin(fs[3], fs[4..], 0x4);
  }

  /** The last four. */
  lemma PackTail(fs: seq<BitStruct.Field>)
    requires |fs| == 4 && BitStruct.AllFitBytes(fs) && fs[3].value == 0
    requires fs[0].width == 8 && fs[1].width == 12 && fs[2].width == 27 && fs[3].width == 4
    requires 0 <= fs[0].value < 0x100 && 0 <= fs[1].value < 0x1000 && 0 <= fs[2].value < 0x800_0000
    ensures BitStruct.Pack(fs) == fs[0].value + 0x100 * fs[1].value + 0x10_0000 * fs[2].value
  {
    WidthPowers();
    BitStruct.PackNone();
    hide BitStruct.Pack, Pow2, BitStruct.AllFitBytes;
    assert fs == [fs[0]] + fs[1..] && fs[1..] == [fs[1]] + fs[2..] && fs[2..] == [fs[2]] + fs[3..];
    assert fs[3..] == [fs[3]] + [];
    PackWithin(fs[0], fs[1..], 0x100);
    PackWithin(fs[1], fs[2..], 0x1000);
    PackWithin(fs[2], fs[3..], 0x800_0000);
    PackWithin(fs[3], [], 0x10);
  }
}
