/**
 The TLV element codec (`TLVElement` in matter/encoding/__init__.py) as functions on values.
 Exceptions are `Failure`; slices past the end of the input are empty, as in Python, and only
 indexing past the end raises.
 */
module Tlv {
  import opened Wrappers
  import opened Bytes
  import Utf8

  datatype Tag =
    | Context(tag: int)
    | Common(tag: int)
    | Implicit(tag: int)
    | Qualified(vendor: int, profile: int, tag: int)

  datatype Kind = Struct | Array | List

  /**
   The data of an element. `Float` and `Double` keep their raw bits. The items of an array carry no
   tag; a structure is a Python dictionary, so its items are in insertion order and have distinct tags.
   */
  datatype Data =
    | Null
    | Bool(b: bool)
    | UInt(n: int)
    | Int(n: int)
    | Float(bits: seq<byte>)
    | Double(bits: seq<byte>)
    | Str(s: string)
    | Octets(o: seq<byte>)
    | Container(kind: Kind, items: seq<Element>)

  datatype Element = Element(tag: Option<Tag>, data: Data)

  const END_OF_CONTAINER: byte := 0x18

  // ---------------------------------------------------------------------- encoding

  /** Width selectors 0..3 stand for 1, 2, 4 and 8 bytes. */
  function WidthBytes(w: nat): (k: nat)
    ensures k > 0
  {
    if w == 0 then 1 else if w == 1 then 2 else if w == 2 then 4 else 8
  }

  function UIntWidth(n: int): (w: nat)
    ensures w <= 3
  {
    if n <= 0xFF then 0 else if n <= 0xFFFF then 1 else if n <= 0xFFFF_FFFF then 2 else 3
  }

  function IntWidth(n: int): (w: nat)
    ensures w <= 3
  {
    if -0x80 <= n <= 0x7F then 0
    else if -0x8000 <= n <= 0x7FFF then 1
    else if -0x8000_0000 <= n <= 0x7FFF_FFFF then 2
    else 3
  }

  /** Tag control form (short form for tags up to 65535) and tag bytes. */
  function TagBytes(t: Option<Tag>): (r: Result<(int, seq<byte>)>)
    ensures r.Success? ==> 0 <= r.value.0 <= 7
  {
    match t
    case None => Success((0, []))
    case Some(Context(n)) => if 0 <= n <= 255 then Success((1, [n])) else Failure(ValueError)
    case Some(Common(n)) => var b :- ToBytes(n, if n <= 65535 then 2 else 4); Success((if n <= 65535 then 2 else 3, b))
    case Some(Implicit(n)) =>
      var b :- ToBytes(n, if n <= 65535 then 2 else 4); Success((if n <= 65535 then 4 else 5, b))
    case Some(Qualified(v, p, n)) =>
      var vb :- ToBytes(v, 2);
      var pb :- ToBytes(p, 2);
      var b :- ToBytes(n, if n <= 65535 then 2 else 4);
      Success((if n <= 65535 then 6 else 7, vb + pb + b))
  }

  /** A string with its minimal-width length in front; `first` is the type code of the one-byte length. */
  function LengthPrefixed(first: int, data: seq<byte>): Result<(int, seq<byte>)> {
    var w := UIntWidth(|data|);
    var l :- ToBytes(|data|, WidthBytes(w));
    Success((first + w, l + data))
  }

  function KindCode(k: Kind): (c: int)
    ensures 21 <= c <= 23
  {
    match k case Struct => 21 case Array => 22 case List => 23
  }

  /** Element type code and everything that follows the tag. */
  function Payload(d: Data): (r: Result<(int, seq<byte>)>)
    ensures r.Success? ==> 0 <= r.value.0 <= 23
    decreases d
  {
    match d
    case Null => Success((20, []))
    case Bool(b) => Success((if b then 9 else 8, []))
    case Int(n) => var w := IntWidth(n); var b :- ToSignedBytes(n, WidthBytes(w)); Success((w, b))
    case UInt(n) => var w := UIntWidth(n); var b :- ToBytes(n, WidthBytes(w)); Success((4 + w, b))
    case Str(s) => LengthPrefixed(12, Utf8.Encode(s))
    case Octets(o) => LengthPrefixed(16, o)
    case Container(k, items) => var b :- EncodeItems(items); Success((KindCode(k), b + [END_OF_CONTAINER]))
    case Float(_) => Failure(ValueError)
    case Double(_) => Failure(ValueError)
  }

  function Encode(e: Element): (r: Result<seq<byte>>)
    ensures r.Success? ==> |r.value| > 0 && r.value[0] != END_OF_CONTAINER
    decreases e
  {
    var (form, tag) :- TagBytes(e.tag);
    var (ty, body) :- Payload(e.data);
    Success([ty + 32 * form] + tag + body)
  }

  function EncodeItems(items: seq<Element>): Result<seq<byte>>
    decreases items
  {
    if items == [] then Success([])
    else
      var head :- Encode(items[0]);
      var tail :- EncodeItems(items[1..]);
      Success(head + tail)
  }

  // ---------------------------------------------------------------------- decoding

  /** The tag that follows the control octet and the number of bytes it is taken to occupy. */
  function DecodeTag(form: nat, b: seq<byte>): Result<(Option<Tag>, nat)> {
    match form
    case 0 => Success((None, 0))
    case 1 => if b == [] then Failure(IndexError) else Success((Some(Context(b[0])), 1))
    case 2 => Success((Some(Common(FromLe(Take(b, 2)))), 2))
    case 3 => Success((Some(Common(FromLe(Take(b, 4)))), 4))
    case 4 => Success((Some(Implicit(FromLe(Take(b, 2)))), 2))
    case 5 => Success((Some(Implicit(FromLe(Take(b, 4)))), 4))
    case 6 =>
      Success((Some(Qualified(FromLe(Take(b, 2)), FromLe(Take(Drop(b, 2), 2)), FromLe(Take(Drop(b, 4), 2)))), 6))
    case 7 =>
      Success((Some(Qualified(FromLe(Take(b, 2)), FromLe(Take(Drop(b, 2), 2)), FromLe(Take(Drop(b, 4), 4)))), 8))
    case _ => Failure(ValueError)
  }

  /** The bytes of a length-prefixed string: the length is trusted, the slice is clamped. */
  function Prefixed(w: nat, b: seq<byte>): (seq<byte>, nat) {
    var len := FromLe(Take(b, WidthBytes(w)));
    (Take(Drop(b, WidthBytes(w)), len), WidthBytes(w) + len)
  }

  function DecodeScalar(ty: nat, b: seq<byte>): Result<(Data, nat)> {
    if ty <= 3 then Success((Int(FromSigned(Take(b, WidthBytes(ty)))), WidthBytes(ty)))
    else if ty <= 7 then Success((UInt(FromLe(Take(b, WidthBytes(ty - 4)))), WidthBytes(ty - 4)))
    else if ty == 8 then Success((Bool(false), 0))
    else if ty == 9 then Success((Bool(true), 0))
    else if ty == 10 then if |b| < 4 then Failure(StructError) else Success((Float(b[..4]), 4))
    else if ty == 11 then if |b| < 8 then Failure(StructError) else Success((Double(b[..8]), 8))
    else if ty <= 15 then
      var (str, n) := Prefixed(ty - 12, b);
      var s :- Utf8.Decode(str);
      Success((Str(s), n))
    else if ty <= 19 then
      var (str, n) := Prefixed(ty - 16, b);
      Success((Octets(str), n))
    else if ty == 20 then Success((Null, 0))
    else Failure(ValueError)
  }

  /** Dictionary assignment: an existing key keeps its place. */
  function DictSet(d: seq<Element>, e: Element): seq<Element> {
    if d == [] then [e]
    else if d[0].tag == e.tag then [e] + d[1..]
    else [d[0]] + DictSet(d[1..], e)
  }

  /** The dictionary left after assigning the items one after the other. */
  function DictOf(items: seq<Element>): seq<Element> {
    if items == [] then [] else DictSet(DictOf(items[..|items| - 1]), items[|items| - 1])
  }

  function KindOf(ty: nat): Kind {
    if ty == 21 then Struct else if ty == 22 then Array else List
  }

  /** The element at the head of `b` and the offset just after it (which may lie past the end of `b`). */
  function DecodeElement(b: seq<byte>): (r: Result<(Element, nat)>)
    ensures r.Success? ==> b != [] && b[0] != END_OF_CONTAINER && r.value.1 > 0
    decreases |b|, 0
  {
    if b == [] then Failure(ValueError) else
    var (tag, i) :- DecodeTag(b[0] / 32, b[1..]);
    var body := Drop(b, 1 + i);
    var ty := b[0] % 32;
    if 21 <= ty <= 23 then
      var (items, n) :- DecodeItems(ty == 22, body);
      Success((Element(tag, Container(KindOf(ty), if ty == 21 then DictOf(items) else items)), 1 + i + n))
    else
      var (d, n) :- DecodeScalar(ty, body);
      Success((Element(tag, d), 1 + i + n))
  }

  /** The elements up to the end-of-container octet, which is consumed. */
  function DecodeItems(untagged: bool, b: seq<byte>): (r: Result<(seq<Element>, nat)>)
    ensures r.Success? ==> r.value.1 > 0
    decreases |b|, 1
  {
    if b == [] then Failure(IndexError)
    else if b[0] == END_OF_CONTAINER then Success(([], 1))
    else
      var (e, o) :- DecodeElement(b);
      if untagged && e.tag != None then Failure(ValueError) else
      var (es, n) :- DecodeItems(untagged, Drop(b, o));
      Success(([e] + es, o + n))
  }

  // ---------------------------------------------------------------------- which elements encode

  predicate DistinctTags(items: seq<Element>) {
    forall i, j | 0 <= i < j < |items| :: items[i].tag != items[j].tag
  }

  /** What the Python types already guarantee: bare array items, distinct dictionary keys. */
  predicate Shaped(d: Data) {
    d.Container? ==>
      && (d.kind.Array? ==> forall i | 0 <= i < |d.items| :: d.items[i].tag == None)
      && (d.kind.Struct? ==> DistinctTags(d.items))
      && forall i | 0 <= i < |d.items| :: Shaped(d.items[i].data)
  }

  predicate TagFits(t: Option<Tag>) {
    match t
    case None => true
    case Some(Context(n)) => 0 <= n <= 0xFF
    case Some(Common(n)) => 0 <= n <= 0xFFFF_FFFF
    case Some(Implicit(n)) => 0 <= n <= 0xFFFF_FFFF
    case Some(Qualified(v, p, n)) => 0 <= v <= 0xFFFF && 0 <= p <= 0xFFFF && 0 <= n <= 0xFFFF_FFFF
  }

  predicate Fits(d: Data) {
    match d
    case UInt(n) => 0 <= n <= 0xFFFF_FFFF_FFFF_FFFF
    case Int(n) => -0x8000_0000_0000_0000 <= n <= 0x7FFF_FFFF_FFFF_FFFF
    case Str(s) => |Utf8.Encode(s)| <= 0xFFFF_FFFF_FFFF_FFFF
    case Octets(o) => |o| <= 0xFFFF_FFFF_FFFF_FFFF
    case Container(_, items) => forall i | 0 <= i < |items| :: TagFits(items[i].tag) && Fits(items[i].data)
    case Float(_) => false
    case Double(_) => false
    case _ => true
  }

  predicate FloatFree(d: Data) {
    match d
    case Float(_) => false
    case Double(_) => false
    case Container(_, items) => forall i | 0 <= i < |items| :: FloatFree(items[i].data)
    case _ => true
  }
}
