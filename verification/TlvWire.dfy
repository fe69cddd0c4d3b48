/**
 The octets of TLV elements, written out with the numbers of the format (appendix A of the Matter Core
 Specification; matter/encoding/__init__.py).
 */
module TlvWire {
  import opened Wrappers
  import opened Bytes
  import opened Tlv
  import TlvTheorems
  import Utf8

  // ---------------------------------------------------------------------- numbers

  /** The octets of a number, least significant first; of a negative number, those of its two's complement. */
  function One(n: int): seq<byte> {
    [n % 256]
  }

  function Two(n: int): seq<byte> {
    [n % 256, n / 0x100 % 256]
  }

  function Four(n: int): seq<byte> {
    [n % 256, n / 0x100 % 256, n / 0x1_0000 % 256, n / 0x100_0000 % 256]
  }

  function Eight(n: int): seq<byte> {
    Four(n) + [n / 0x1_0000_0000 % 256, n / 0x100_0000_0000 % 256, n / 0x1_0000_0000_0000 % 256,
               n / 0x100_0000_0000_0000 % 256]
  }

  lemma LeStep(n: nat, k: nat)
    requires k > 0
    ensures Le(n, k) == [n % 256] + Le(n / 256, k - 1)
  {
  }

  lemma LeFour(n: nat, k: nat)
    ensures Le(n, k + 4) == Four(n) + Le(n / 0x1_0000_0000, k)
  {
    var a, b, c := n / 0x100, n / 0x1_0000, n / 0x100_0000;
    assert a / 256 == b && b / 256 == c && c / 256 == n / 0x1_0000_0000;
    LeStep(n, k + 4);
    LeStep(a, k + 3);
    LeStep(b, k + 2);
    LeStep(c, k + 1);
    hide Le;
  }

  /** A number's octets at each of the four widths. */
  lemma LeIs(n: nat)
    ensures Le(n, 1) == One(n) && Le(n, 2) == Two(n) && Le(n, 4) == Four(n) && Le(n, 8) == Eight(n)
  {
    assert Le(n / 256, 0) == [] && Le(n / 256 / 256, 0) == [];
    LeStep(n, 1);
    LeStep(n, 2);
    LeStep(n / 256, 1);
    var m := n / 0x1_0000_0000;
    assert Le(m, 0) == [] && Le(m / 0x1_0000_0000, 0) == [];
    LeFour(n, 0);
    LeFour(n, 4);
    LeFour(m, 0);
    hide Le;
    assert m / 0x100 == n / 0x100_0000_0000 && m / 0x1_0000 == n / 0x1_0000_0000_0000;
    assert m / 0x100_0000 == n / 0x100_0000_0000_0000;
  }

  lemma EightHalves(n: int)
    ensures Eight(n) == Four(n) + Four(n / 0x1_0000_0000)
  {
    var m := n / 0x1_0000_0000;
    assert m / 0x100 == n / 0x100_0000_0000 && m / 0x1_0000 == n / 0x1_0000_0000_0000;
    assert m / 0x100_0000 == n / 0x100_0000_0000_0000;
  }

  lemma DivideSum(n: int, p: int, q: int)
    requires p > 0
    ensures (n + p * q) / p == n / p + q
  {
    var x := n + p * q;
    var d := x / p - (n / p + q);
    assert x == p * (x / p) + x % p && n == p * (n / p) + n % p;
    assert p * d == n % p - x % p by {
      assert p * d == p * (x / p) - p * (n / p + q) && p * (n / p + q) == p * (n / p) + p * q;
    }
    if d >= 1 { Product(p, d); } else if d <= -1 { assert p * -d == -(p * d); Product(p, -d); }
  }

  lemma Product(p: int, d: int)
    requires p > 0 && d >= 1
    ensures p * d >= p
  {
    assert p * d == p + p * (d - 1) && p * (d - 1) >= 0;
  }

  /** The octet at p of a number does not see a multiple of 256 times p. */
  lemma OctetShifted(n: int, p: int, j: int)
    requires p > 0
    ensures (n + p * (256 * j)) / p % 256 == n / p % 256
  {
    DivideSum(n, p, 256 * j);
  }

  lemma FourShifted(n: int, k: int)
    ensures Four(n + 0x1_0000_0000 * k) == Four(n)
  {
    OctetShifted(n, 1, 0x100_0000 * k);
    OctetShifted(n, 0x100, 0x1_0000 * k);
    OctetShifted(n, 0x1_0000, 0x100 * k);
    OctetShifted(n, 0x100_0000, k);
  }

  lemma EightShifted(n: int)
    ensures Eight(n + 0x1_0000_0000_0000_0000) == Eight(n)
  {
    var p := 0x1_0000_0000;
    EightHalves(n);
    EightHalves(n + 0x1_0000_0000_0000_0000);
    hide Four, Eight;
    FourShifted(n, p);
    DivideSum(n, p, p);
    FourShifted(n / p, 1);
  }

  /** Two's complement: adding a power of 256 leaves the octets as they are. */
  lemma Complement(n: int)
    ensures One(n + 0x100) == One(n) && Two(n + 0x1_0000) == Two(n) && Four(n + 0x1_0000_0000) == Four(n)
    ensures Eight(n + 0x1_0000_0000_0000_0000) == Eight(n)
  {
    hide Four, Eight;
    OctetShifted(n, 1, 0x100);
    OctetShifted(n, 0x100, 1);
    FourShifted(n, 1);
    EightShifted(n);
  }

  // ---------------------------------------------------------------------- elements

  /** The tag control in the top three bits of the control octet, and the tag's octets. */
  function TagWire(tag: Option<Tag>): (int, seq<byte>) {
    match tag
    case None => (0x00, [])
    case Some(Context(n)) => (0x20, One(n))
    case Some(Common(n)) => if n < 0x1_0000 then (0x40, Two(n)) else (0x60, Four(n))
    case Some(Implicit(n)) => if n < 0x1_0000 then (0x80, Two(n)) else (0xA0, Four(n))
    case Some(Qualified(v, p, n)) =>
      if n < 0x1_0000 then (0xC0, Two(v) + Two(p) + Two(n)) else (0xE0, Two(v) + Two(p) + Four(n))
  }

  /** A string after its length, in the least width that holds it. */
  function StringWire(first: int, data: seq<byte>): (int, seq<byte>) {
    var n := |data|;
    if n < 0x100 then (first, One(n) + data)
    else if n < 0x1_0000 then (first + 1, Two(n) + data)
    else if n < 0x1_0000_0000 then (first + 2, Four(n) + data)
    else (first + 3, Eight(n) + data)
  }

  /** The element type in the low five bits of the control octet, and what follows the tag. */
  function DataWire(d: Data): (int, seq<byte>)
    decreases d
  {
    match d
    case Int(n) =>
      if -0x80 <= n < 0x80 then (0x00, One(n))
      else if -0x8000 <= n < 0x8000 then (0x01, Two(n))
      else if -0x8000_0000 <= n < 0x8000_0000 then (0x02, Four(n))
      else (0x03, Eight(n))
    case UInt(n) =>
      if n < 0x100 then (0x04, One(n))
      else if n < 0x1_0000 then (0x05, Two(n))
      else if n < 0x1_0000_0000 then (0x06, Four(n))
      else (0x07, Eight(n))
    case Bool(b) => (if b then 0x09 else 0x08, [])
    case Float(bits) => (0x0A, bits)
    case Double(bits) => (0x0B, bits)
    case Str(s) => StringWire(0x0C, Utf8.Encode(s))
    case Octets(o) => StringWire(0x10, o)
    case Null => (0x14, [])
    case Container(Struct, items) => (0x15, ItemsWire(items) + [0x18])
    case Container(Array, items) => (0x16, ItemsWire(items) + [0x18])
    case Container(List, items) => (0x17, ItemsWire(items) + [0x18])
  }

  /** The octets of an element; the control octet is cut to an octet for elements that have no encoding. */
  function Wire(e: Element): seq<byte>
    decreases e
  {
    [(TagWire(e.tag).0 + DataWire(e.data).0) % 256] + TagWire(e.tag).1 + DataWire(e.data).1
  }

  function ItemsWire(items: seq<Element>): seq<byte>
    decreases items
  {
    if items == [] then [] else Wire(items[0]) + ItemsWire(items[1..])
  }

  lemma ToBytesIs(n: int)
    requires n >= 0
    ensures ToBytes(n, 1) == (if n < 0x100 then Success(One(n)) else Failure(OverflowError))
    ensures ToBytes(n, 2) == (if n < 0x1_0000 then Success(Two(n)) else Failure(OverflowError))
    ensures ToBytes(n, 4) == (if n < 0x1_0000_0000 then Success(Four(n)) else Failure(OverflowError))
    ensures ToBytes(n, 8) == (if n < 0x1_0000_0000_0000_0000 then Success(Eight(n)) else Failure(OverflowError))
  {
    Pow256Values();
    LeIs(n);
    hide Le, Pow256;
  }

  lemma SignedIs(n: int)
    ensures -0x80 <= n < 0x80 ==> ToSignedBytes(n, 1) == Success(One(n))
    ensures -0x8000 <= n < 0x8000 ==> ToSignedBytes(n, 2) == Success(Two(n))
    ensures -0x8000_0000 <= n < 0x8000_0000 ==> ToSignedBytes(n, 4) == Success(Four(n))
    ensures ToSignedBytes(n, 8) == if -0x8000_0000_0000_0000 <= n < 0x8000_0000_0000_0000 then Success(Eight(n))
                                   else Failure(OverflowError)
  {
    Pow256Values();
    Complement(n);
    hide Le, Pow256, One, Two, Four, Eight;
    if n >= 0 { LeIs(n); }
    if n + 0x100 >= 0 { LeIs(n + 0x100); }
    if n + 0x1_0000 >= 0 { LeIs(n + 0x1_0000); }
    if n + 0x1_0000_0000 >= 0 { LeIs(n + 0x1_0000_0000); }
    if n + 0x1_0000_0000_0000_0000 >= 0 { LeIs(n + 0x1_0000_0000_0000_0000); }
  }

  lemma TagIs(tag: Option<Tag>)
    requires TagBytes(tag).Success?
    ensures 32 * TagBytes(tag).value.0 == TagWire(tag).0 && TagBytes(tag).value.1 == TagWire(tag).1
  {
    hide ToBytes, Two, Four, Le;
    match tag
    case None =>
    case Some(Context(n)) =>
    case Some(Common(n)) => TagNumber(n);
    case Some(Implicit(n)) => TagNumber(n);
    case Some(Qualified(v, p, n)) => TagNumber(n); TagNumber(v); TagNumber(p);
  }

  lemma TagNumber(n: int)
    ensures ToBytes(n, 2).Success? ==> 0 <= n < 0x1_0000 && ToBytes(n, 2).value == Two(n)
    ensures ToBytes(n, 4).Success? ==> 0 <= n && ToBytes(n, 4).value == Four(n)
  {
    if n >= 0 { ToBytesIs(n); }
    hide Le, Pow256, Two, Four;
  }

  lemma StringIs(first: int, data: seq<byte>)
    requires LengthPrefixed(first, data).Success?
    ensures LengthPrefixed(first, data).value.0 == StringWire(first, data).0
    ensures LengthPrefixed(first, data).value.1 == StringWire(first, data).1
  {
    ToBytesIs(|data|);
    hide ToBytes, One, Two, Four, Eight;
  }

  lemma {:induction false} DataIs(d: Data)
    requires Payload(d).Success?
    ensures Payload(d).value.0 == DataWire(d).0 && Payload(d).value.1 == DataWire(d).1
    decreases d, 0
  {
    hide ToBytes, ToSignedBytes, One, Two, Four, Eight, Utf8.Encode;
    match d
    case Int(n) => SignedIs(n);
    case UInt(n) => if n >= 0 { ToBytesIs(n); } else { NegativeFails(n); }
    case Str(s) => StringIs(12, Utf8.Encode(s));
    case Octets(o) => StringIs(16, o);
    case Container(_, items) => ItemsAre(items);
    case _ =>
  }

  lemma NegativeFails(n: int)
    requires n < 0
    ensures ToBytes(n, 1).Failure?
  {
  }

  lemma {:induction false} ItemsAre(items: seq<Element>)
    requires EncodeItems(items).Success?
    ensures EncodeItems(items).value == ItemsWire(items)
    decreases items, 0
  {
    if items != [] {
      EncodesAsWire(items[0]);
      ItemsAre(items[1..]);
      hide Encode, Wire;
    }
  }

  /** Every element that encodes has the octets of the format. */
  lemma {:induction false} EncodesAsWire(e: Element)
    requires Encode(e).Success?
    ensures Encode(e).value == Wire(e)
    decreases e, 1
  {
    TagIs(e.tag);
    DataIs(e.data);
    hide TagBytes, Payload, TagWire, DataWire;
  }

  /** So the octets of the format are read back, whatever follows. */
  lemma DecodesWire(e: Element, rest: seq<byte>)
    requires Shaped(e.data) && TagFits(e.tag) && Fits(e.data)
    ensures DecodeElement(Wire(e) + rest) == Success((e, |Wire(e)|))
  {
    TlvTheorems.EncodeSucceedsIff(e);
    EncodesAsWire(e);
    hide Wire, Encode, DecodeElement, Shaped, Fits;
    TlvTheorems.RoundTrip(e, rest);
  }

  // ---------------------------------------------------------------------- other octets that decode

  lemma NumberOf(n: nat)
    ensures n < 0x100 ==> FromLe(One(n)) == n
    ensures n < 0x1_0000 ==> FromLe(Two(n)) == n
    ensures n < 0x1_0000_0000 ==> FromLe(Four(n)) == n
    ensures n < 0x1_0000_0000_0000_0000 ==> FromLe(Eight(n)) == n
  {
    LeIs(n);
    Pow256Values();
    hide Le, One, Two, Four, Eight, FromLe, Pow256;
    if n < 0x100 { FromLeOfLe(n, 1); }
    if n < 0x1_0000 { FromLeOfLe(n, 2); }
    if n < 0x1_0000_0000 { FromLeOfLe(n, 4); }
    if n < 0x1_0000_0000_0000_0000 { FromLeOfLe(n, 8); }
  }

  lemma SignedOf(n: int)
    ensures -0x80 <= n < 0x80 ==> FromSigned(One(n)) == n
    ensures -0x8000 <= n < 0x8000 ==> FromSigned(Two(n)) == n
    ensures -0x8000_0000 <= n < 0x8000_0000 ==> FromSigned(Four(n)) == n
    ensures -0x8000_0000_0000_0000 <= n < 0x8000_0000_0000_0000 ==> FromSigned(Eight(n)) == n
  {
    SignedIs(n);
    Pow256Values();
    hide Le, One, Two, Four, Eight, FromSigned, Pow256;
    if -0x80 <= n < 0x80 { SignedRoundTrip(n, 1); }
    if -0x8000 <= n < 0x8000 { SignedRoundTrip(n, 2); }
    if -0x8000_0000 <= n < 0x8000_0000 { SignedRoundTrip(n, 4); }
    if -0x8000_0000_0000_0000 <= n < 0x8000_0000_0000_0000 { SignedRoundTrip(n, 8); }
  }

  function Bare(scalar: Result<(Data, nat)>): Result<(Element, nat)> {
    var (d, n) :- scalar;
    Success((Element(None, d), 1 + n))
  }

  /** An untagged scalar: its type, and what follows. */
  lemma Untagged(ty: byte, body: seq<byte>)
    requires ty < 32 && !(21 <= ty <= 23)
    ensures DecodeElement([ty] + body) == Bare(DecodeScalar(ty, body))
  {
    hide DecodeScalar;
    assert ([ty] + body)[1..] == body && Drop([ty] + body, 1) == body;
  }

  /** A number takes as many octets as its type says. */
  lemma NumberDecodes(ty: byte, body: seq<byte>, rest: seq<byte>)
    requires ty < 8 && |body| == (match ty % 4 case 0 => 1 case 1 => 2 case 2 => 4 case _ => 8)
    ensures DecodeElement([ty] + (body + rest)) ==
            Success((Element(None, if ty < 4 then Int(FromSigned(body)) else UInt(FromLe(body))), 1 + |body|))
  {
    Untagged(ty, body + rest);
    TakeDropOfConcat(body, rest);
    hide DecodeElement, FromLe, FromSigned, Take, Drop;
  }

  /** The octets of a number at width 0 to 3: one, two, four or eight of them. */
  function AtWidth(w: nat, n: int): (b: seq<byte>)
    ensures |b| == match w case 0 => 1 case 1 => 2 case 2 => 4 case _ => 8
  {
    match w case 0 => One(n) case 1 => Two(n) case 2 => Four(n) case _ => Eight(n)
  }

  /** An unsigned number is read at every width that holds it, and not only at the least. */
  lemma NumbersDecode(w: nat, n: nat, rest: seq<byte>)
    requires w < 4
    requires n < match w case 0 => 0x100 case 1 => 0x1_0000 case 2 => 0x1_0000_0000 case _ => 0x1_0000_0000_0000_0000
    ensures DecodeElement([0x04 + w] + (AtWidth(w, n) + rest))
            == Success((Element(None, UInt(n)), 1 + |AtWidth(w, n)|))
  {
    NumberOf(n);
    hide DecodeElement, One, Two, Four, Eight, FromLe, FromSigned;
    assert FromLe(AtWidth(w, n)) == n;
    hide AtWidth;
    NumberDecodes(4 + w, AtWidth(w, n), rest);
  }

  /** A signed number likewise, in two's complement. */
  lemma SignedNumbersDecode(w: nat, n: int, rest: seq<byte>)
    requires w < 4
    requires match w
             case 0 => -0x80 <= n < 0x80
             case 1 => -0x8000 <= n < 0x8000
             case 2 => -0x8000_0000 <= n < 0x8000_0000
             case _ => -0x8000_0000_0000_0000 <= n < 0x8000_0000_0000_0000
    ensures DecodeElement([w] + (AtWidth(w, n) + rest)) == Success((Element(None, Int(n)), 1 + |AtWidth(w, n)|))
  {
    SignedOf(n);
    hide DecodeElement, One, Two, Four, Eight, FromLe, FromSigned;
    assert FromSigned(AtWidth(w, n)) == n;
    hide AtWidth;
    NumberDecodes(w, AtWidth(w, n), rest);
  }

  /** Floats keep their octets, of which there must be enough; the other numbers take what there is. */
  lemma FloatsDecode(bits: seq<byte>, rest: seq<byte>)
    ensures |bits| == 4 ==> DecodeElement([0x0A] + (bits + rest)) == Success((Element(None, Float(bits)), 5))
    ensures |bits| == 8 ==> DecodeElement([0x0B] + (bits + rest)) == Success((Element(None, Double(bits)), 9))
    ensures |bits| < 4 ==> DecodeElement([0x0A] + bits) == Failure(StructError)
    ensures |bits| < 8 ==> DecodeElement([0x0B] + bits) == Failure(StructError)
  {
    Untagged(10, bits + rest);
    Untagged(11, bits + rest);
    Untagged(10, bits);
    Untagged(11, bits);
    assert (bits + rest)[..|bits|] == bits;
    hide DecodeElement;
  }

  /** The octets 24 to 31 are no element types. */
  lemma ReservedRefused(ty: byte, rest: seq<byte>)
    requires 24 <= ty < 32
    ensures DecodeElement([ty] + rest) == Failure(ValueError)
  {
    Untagged(ty, rest);
    hide DecodeElement;
  }

  /** A two-octet number of which one octet is there is that octet, and counts as read in full. */
  lemma ShortNumber(a: byte)
    ensures DecodeElement([0x05, a]) == Success((Element(None, UInt(a)), 3))
  {
    Untagged(5, [a]);
    assert [0x05] + [a] == [0x05, a] && Take([a], 2) == [a] && FromLe([a]) == a;
    hide DecodeElement, FromLe;
  }

  // ---------------------------------------------------------------------- exceptions

  /** What a number or tag out of range, and a float, raise on encoding. */
  lemma EncodeRaises(tag: Option<Tag>, d: Data)
    ensures !TagFits(tag) ==>
              Encode(Element(tag, d)) == Failure(if tag.value.Context? then ValueError else OverflowError)
    ensures TagFits(tag) && (d.Float? || d.Double?) ==> Encode(Element(tag, d)) == Failure(ValueError)
    ensures TagFits(tag) && (d.Int? || d.UInt?) && !Fits(d) ==> Encode(Element(tag, d)) == Failure(OverflowError)
  {
    Pow256Values();
    hide Le, Pow256;
  }

  /** What missing octets, and a tag inside an array, raise on decoding. */
  lemma DecodeRaises(b: seq<byte>, untagged: bool)
    ensures b == [] ==> DecodeElement(b) == Failure(ValueError) && DecodeItems(untagged, b) == Failure(IndexError)
    ensures |b| == 1 && b[0] / 32 == 1 ==> DecodeElement(b) == Failure(IndexError)
    ensures b != [] && DecodeElement(b).Success? && DecodeElement(b).value.0.tag.Some? ==>
              DecodeItems(true, b) == Failure(ValueError)
  {
    hide FromLe;
  }

  // ---------------------------------------------------------------------- examples

  function BoolWire(b: bool): byte {
    if b then 0x29 else 0x28
  }

  /** A boolean with a context tag is its control octet and its tag. */
  lemma TaggedBool(n: int, b: bool)
    requires 0 <= n < 0x100
    ensures Wire(Element(Some(Context(n)), Bool(b))) == [BoolWire(b), n]
  {
  }

  /** A structure of one boolean, both ways: with tag 1 and true it is [0x15, 0x29, 0x01, 0x18]. */
  lemma SmallStructure(n: int, b: bool)
    requires 0 <= n < 0x100
    ensures var e := Element(None, Container(Struct, [Element(Some(Context(n)), Bool(b))]));
            && Encode(e) == Success([0x15, BoolWire(b), n, 0x18])
            && DecodeElement([0x15, BoolWire(b), n, 0x18]) == Success((e, 4))
  {
    var inner := Element(Some(Context(n)), Bool(b));
    TaggedBool(n, b);
    assert [inner][1..] == [] && ItemsWire([inner]) == [BoolWire(b), n] + [];
    StructureBothWays([inner], [BoolWire(b), n]);
    assert [0x15] + [BoolWire(b), n] + [0x18] == [0x15, BoolWire(b), n, 0x18];
  }

  /** A structure of two booleans, both ways. */
  lemma PairStructure(m: int, a: bool, n: int, b: bool)
    requires 0 <= m < 0x100 && 0 <= n < 0x100 && m != n
    ensures var e := Element(None, Container(Struct, [Element(Some(Context(m)), Bool(a)),
                                                      Element(Some(Context(n)), Bool(b))]));
            && Encode(e) == Success([0x15, BoolWire(a), m, BoolWire(b), n, 0x18])
            && DecodeElement([0x15, BoolWire(a), m, BoolWire(b), n, 0x18]) == Success((e, 6))
  {
    var x, y := Element(Some(Context(m)), Bool(a)), Element(Some(Context(n)), Bool(b));
    TaggedBool(m, a);
    TaggedBool(n, b);
    hide Wire;
    assert [x, y][1..] == [y] && [y][1..] == [] && ItemsWire([y]) == [BoolWire(b), n] + [];
    assert ItemsWire([x, y]) == [BoolWire(a), m] + [BoolWire(b), n];
    StructureBothWays([x, y], [BoolWire(a), m, BoolWire(b), n]);
    assert [0x15] + [BoolWire(a), m, BoolWire(b), n] + [0x18] == [0x15, BoolWire(a), m, BoolWire(b), n, 0x18];
  }

  lemma StructureWire(items: seq<Element>)
    ensures Wire(Element(None, Container(Struct, items))) == [0x15] + ItemsWire(items) + [0x18]
  {
    hide ItemsWire;
  }

  lemma StructureFits(items: seq<Element>)
    requires DistinctTags(items)
    requires forall i | 0 <= i < |items| :: Shaped(items[i].data) && Fits(items[i].data) && TagFits(items[i].tag)
    ensures Shaped(Container(Struct, items)) && Fits(Container(Struct, items))
  {
  }

  /** A structure stands between 0x15 and 0x18. */
  lemma StructureBothWays(items: seq<Element>, inside: seq<byte>)
    requires DistinctTags(items) && ItemsWire(items) == inside
    requires forall i | 0 <= i < |items| :: Shaped(items[i].data) && Fits(items[i].data) && TagFits(items[i].tag)
    ensures var e := Element(None, Container(Struct, items));
            && Encode(e) == Success([0x15] + inside + [0x18])
            && DecodeElement([0x15] + inside + [0x18]) == Success((e, |inside| + 2))
  {
    var e := Element(None, Container(Struct, items));
    StructureWire(items);
    StructureFits(items);
    hide Wire, Encode, DecodeElement, Shaped, Fits, DistinctTags;
    TlvTheorems.EncodeSucceedsIff(e);
    EncodesAsWire(e);
    DecodesWire(e, []);
    assert Wire(e) + [] == Wire(e);
  }

  /** Every container's encoding ends with the end-of-container octet. */
  lemma ContainersEnd(tag: Option<Tag>, kind: Kind, items: seq<Element>)
    requires Encode(Element(tag, Container(kind, items))).Success?
    ensures var b := Encode(Element(tag, Container(kind, items))).value; b[|b| - 1] == 0x18
  {
    EncodesAsWire(Element(tag, Container(kind, items)));
    hide Encode, ItemsWire, TagWire;
  }
}
