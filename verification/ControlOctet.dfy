/** The TLV control octet as an instance of the bit packer (`TLVControlOctet` in matter/encoding/__init__.py). */
module ControlOctet {
  import opened Wrappers
  import opened Bytes
  import BitStruct

  const SLOTS := [BitStruct.Slot(5, true), BitStruct.Slot(3, true)]

  function Fields(elementType: int, tagControl: int): seq<BitStruct.Field> {
    [BitStruct.Field(5, elementType), BitStruct.Field(3, tagControl)]
  }

  lemma Powers()
    ensures Pow2(5) == 32 && Pow2(3) == 8 && Pow2(8) == 256 && Pow256(1) == 256
  {
    assert Pow2(4) == 16;
  }

  lemma PackPair(a: BitStruct.Field, b: BitStruct.Field)
    requires BitStruct.AllFitBytes([a, b]) && BitStruct.FitsBytes(a) && BitStruct.FitsBytes(b)
    ensures BitStruct.Pack([a, b])
            == BitStruct.LowBits(a.value, a.width) + Pow2(a.width) * BitStruct.LowBits(b.value, b.width)
    ensures BitStruct.TotalBits([a, b]) == a.width + b.width
  {
    hide BitStruct.LowBits, Pow2;
    assert [a, b][1..] == [b] && [b][1..] == [];
    var low := BitStruct.LowBits(b.value, b.width);
    assert BitStruct.Pack([]) == 0 && BitStruct.TotalBits([]) == 0;
    assert BitStruct.Pack([b]) == BitStruct.Tail(b.value, b.width, 0) == low + Pow2(b.width) * 0 == low;
    assert BitStruct.Pack([a, b]) == BitStruct.Tail(a.value, a.width, low);
    assert BitStruct.TotalBits([b]) == b.width;
  }

  lemma EncodePair(a: BitStruct.Field, b: BitStruct.Field)
    requires BitStruct.FitsBytes(a) && BitStruct.FitsBytes(b) && 0 < a.width + b.width <= 8
    ensures BitStruct.Encode([a, b])
         == Success(Le(BitStruct.LowBits(a.value, a.width) + Pow2(a.width) * BitStruct.LowBits(b.value, b.width), 1))
  {
    hide BitStruct.LowBits, BitStruct.Pack, BitStruct.TotalBits, BitStruct.FitsBytes, Pow2, Le;
    assert BitStruct.AllFitBytes([a, b]);
    PackPair(a, b);
  }

  /** Packed, the octet is the element type plus 32 times the tag control. */
  lemma Packed(elementType: BitStruct.Field, tagControl: BitStruct.Field)
    requires elementType.width == 5 && tagControl.width == 3
    requires 0 <= elementType.value < 32 && 0 <= tagControl.value < 8
    ensures BitStruct.Encode([elementType, tagControl]) == Success([elementType.value + 32 * tagControl.value])
  {
    Powers();
    hide BitStruct.Encode, BitStruct.LowBits, BitStruct.FitsBytes, Pow2, Le;
    BitStruct.WithinWidthFits(elementType);
    BitStruct.WithinWidthFits(tagControl);
    BitStruct.CutExactly(elementType.value, 5);
    BitStruct.CutExactly(tagControl.value, 3);
    EncodePair(elementType, tagControl);
    OneOctet(elementType.value + 32 * tagControl.value);
  }

  lemma OneOctet(n: nat)
    requires n < 256
    ensures Le(n, 1) == [n]
  {
    assert Le(n / 256, 0) == [];
  }

  /** Unpacked, an octet gives its remainder and its quotient by 32. */
  lemma Unpacked(octet: byte)
    ensures BitStruct.Decode([octet], SLOTS) == Success([Some(octet % 32), Some(octet / 32)])
  {
    Powers();
    hide BitStruct.Encode, BitStruct.Decode, BitStruct.LowBits, BitStruct.FitsBytes, Pow2;
    var f := Fields(octet % 32, octet / 32);
    Packed(f[0], f[1]);
    BitStruct.WithinWidthFits(f[0]);
    BitStruct.WithinWidthFits(f[1]);
    BitStruct.CutExactly(octet % 32, 5);
    BitStruct.CutExactly(octet / 32, 3);
    BitStruct.RoundTrip(f, SLOTS, []);
    assert BitStruct.Values(f, SLOTS) == [Some(octet % 32), Some(octet / 32)];
    assert [octet] + [] == [octet];
  }
}
