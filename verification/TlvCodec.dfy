/**
 The codec as the program runs it: an output buffer that is appended to, and a decoder that moves an
 offset over the input. Both compute exactly the functions of module Tlv, exceptions included.
 */
module TlvCodec {
  import opened Wrappers
  import opened Bytes
  import opened Tlv
  import Utf8

  /** The tag branches of the encoder: the control form, and the tag bytes appended to the buffer. */
  method EncodeTag(t: Option<Tag>) returns (r: Result<(int, seq<byte>)>)
    ensures r == TagBytes(t)
  {
    var out: seq<byte>, form, wide := [], 0, 0;
    match t {
      case None => return Success((0, []));
      case Some(Context(n)) =>
        if !(0 <= n <= 255) { return Failure(ValueError); }
        return Success((1, [n]));
      case Some(Common(n)) => form, wide := 2, n;
      case Some(Implicit(n)) => form, wide := 4, n;
      case Some(Qualified(v, p, n)) =>
        form, wide := 6, n;
        var vb :- ToBytes(v, 2);
        out := vb;
        var pb :- ToBytes(p, 2);
        out := out + pb;
    }
    var b :- ToBytes(wide, if wide <= 65535 then 2 else 4);
    assert t.value.Qualified? || out + b == b;
    return Success((if wide <= 65535 then form else form + 1, out + b));
  }

  method EncodeToBytes(e: Element) returns (r: Result<seq<byte>>)
    ensures r == Encode(e)
    decreases e, 1
  {
    var t := EncodeTag(e.tag);
    if t.Failure? { return Failure(t.error); }
    var tagControl, out := t.value.0, t.value.1;
    ghost var tag := out;
    var elementType;
    if e.data.Container? {
      var b := EncodeSequence(e.data.items);
      if b.Failure? { return Failure(b.error); }
      elementType := KindCode(e.data.kind);
      out := out + (b.value + [END_OF_CONTAINER]);
    } else {
      var p := EncodeScalar(e.data);
      if p.Failure? { return Failure(p.error); }
      elementType := p.value.0;
      out := out + p.value.1;
    }
    var control := [elementType + 32 * tagControl];
    assert control + out == control + tag + Payload(e.data).value.1;
    return Success(control + out);
  }

  /** The container loops of the encoder. */
  method EncodeSequence(items: seq<Element>) returns (r: Result<seq<byte>>)
    ensures r == EncodeItems(items)
    decreases items, 0
  {
    var out: seq<byte>, k := [], 0;
    assert items[0..] == items
           && (EncodeItems(items).Success? ==> [] + EncodeItems(items).value == EncodeItems(items).value);
    while k < |items|
      invariant k <= |items|
      invariant Appended(out, EncodeItems(items[k..])) == EncodeItems(items)
    {
      assert items[k..][1..] == items[k + 1..];
      var b := EncodeToBytes(items[k]);
      if b.Failure? { return Failure(b.error); }
      AppendedTwice(out, b.value, EncodeItems(items[k + 1..]));
      out := out + b.value;
      k := k + 1;
    }
    assert out + [] == out;
    return Success(out);
  }

  /** The scalar branches of the encoder. */
  method EncodeScalar(d: Data) returns (r: Result<(int, seq<byte>)>)
    requires !d.Container?
    ensures r == Payload(d)
  {
    match d {
      case Null => return Success((20, []));
      case Bool(b) => return Success((if b then 9 else 8, []));
      case Str(s) => var r' := EncodeString(12, Utf8.Encode(s)); return r';
      case Octets(o) => var r' := EncodeString(16, o); return r';
      case Int(n) =>
        var ty, k := 3, 8;
        if -0x80 <= n <= 0x7F { ty, k := 0, 1; }
        else if -0x8000 <= n <= 0x7FFF { ty, k := 1, 2; }
        else if -0x8000_0000 <= n <= 0x7FFF_FFFF { ty, k := 2, 4; }
        var b :- ToSignedBytes(n, k);
        return Success((ty, b));
      case UInt(n) =>
        var ty, k := 7, 8;
        if n <= 0xFF { ty, k := 4, 1; } else if n <= 0xFFFF { ty, k := 5, 2; }
          else if n <= 0xFFFF_FFFF { ty, k := 6, 4; }
        var b :- ToBytes(n, k);
        return Success((ty, b));
      case Float(_) => return Failure(ValueError);
      case Double(_) => return Failure(ValueError);
    }
  }

  method EncodeString(first: int, data: seq<byte>) returns (r: Result<(int, seq<byte>)>)
    ensures r == LengthPrefixed(first, data)
  {
    var l, ty, k := |data|, first + 3, 8;
    if l <= 0xFF { ty, k := first, 1; } else if l <= 0xFFFF { ty, k := first + 1, 2; }
      else if l <= 0xFFFF_FFFF { ty, k := first + 2, 4; }
    var b :- ToBytes(l, k);
    return Success((ty, b + data));
  }

  /** The decoder: reads one element from `data` and returns it with the offset reached. */
  method DecodeFromBytes(data: seq<byte>) returns (r: Result<(Element, nat)>)
    ensures r == DecodeElement(data)
    decreases |data|, 1
  {
    hide DecodeTag, DecodeScalar, DecodeItems;
    if data == [] { return Failure(ValueError); }
    var ty := data[0] % 32;
    var t := DecodeTag(data[0] / 32, data[1..]);
    if t.Failure? { return Failure(t.error); }
    var tag, i := t.value.0, 1 + t.value.1;
    if 21 <= ty <= 23 {
      var c := DecodeContainer(ty, data, i);
      ContainerCase(data, tag, i - 1, DecodeItems(ty == 22, Drop(data, i)), c);
      if c.Failure? { return Failure(c.error); }
      return Success((Element(tag, Container(KindOf(ty), c.value.0)), c.value.1));
    } else {
      var s := DecodeScalar(ty, Drop(data, i));
      if s.Failure? { return Failure(s.error); }
      return Success((Element(tag, s.value.0), i + s.value.1));
    }
  }

  /** `c` is a container's value and end offset, given the items that follow its tag at offset `from`. */
  ghost predicate IsContainer(c: Result<(seq<Element>, nat)>, ty: nat, from: nat, items: Result<(seq<Element>, nat)>) {
    if items.Failure? then c.Failure? && c.error == items.error
    else c.Success? && c.value.0 == (if ty == 21 then DictOf(items.value.0) else items.value.0)
         && c.value.1 == from + items.value.1
  }

  /** `r` is what a container element decodes to, given its items. */
  ghost predicate IsContainerElement(r: Result<(Element, nat)>, tag: Option<Tag>, kind: Kind,
                                     c: Result<(seq<Element>, nat)>)
  {
    if c.Failure? then r.Failure? && r.error == c.error
    else r.Success? && r.value.0 == Element(tag, Container(kind, c.value.0)) && r.value.1 == c.value.1
  }

  lemma ContainerCase(data: seq<byte>, tag: Option<Tag>, i: nat, items: Result<(seq<Element>, nat)>,
                      c: Result<(seq<Element>, nat)>)
    requires data != [] && 21 <= data[0] % 32 <= 23 && DecodeTag(data[0] / 32, data[1..]) == Success((tag, i))
    requires items == DecodeItems(data[0] % 32 == 22, Drop(data, 1 + i)) && IsContainer(c, data[0] % 32, 1 + i, items)
    ensures IsContainerElement(DecodeElement(data), tag, KindOf(data[0] % 32), c)
  {
    hide DecodeItems, DecodeTag, DecodeScalar, DictOf;
  }

  /** The three container loops: items from offset `from` up to the end-of-container octet. */
  method DecodeContainer(ty: nat, data: seq<byte>, from: nat) returns (r: Result<(seq<Element>, nat)>)
    requires data != [] && from > 0
    ensures IsContainer(r, ty, from, DecodeItems(ty == 22, Drop(data, from)))
    decreases |data|, 0
  {
    var i := from;
    ghost var all := DecodeItems(ty == 22, Drop(data, from));
    ghost var read: seq<Element> := [];
    var value: seq<Element> := [];
    ReadStart(all, ty == 21);
    hide DecodeElement, DecodeItems, DictOf, DictSet, Reads, IsContainer, Drop;
    while i < |data| && data[i] != END_OF_CONTAINER
      invariant i >= from
      invariant Reads(all, read, i - from, ty == 21, value, DecodeItems(ty == 22, Drop(data, i)))
      decreases |data| - i
    {
      DropIn(data, i);
      ReadFails(all, read, i - from, ty, value, data[i..], from);
      var item := DecodeFromBytes(data[i..]);
      if item.Failure? { return Failure(item.error); }
      var e, o := item.value.0, item.value.1;
      if ty == 22 && e.tag != None { return Failure(ValueError); }
      ReadStep(all, read, i - from, ty, value, data[i..], e, o);
      DropDrop(data, i, o);
      read := read + [e];
      value := if ty == 21 then DictSet(value, e) else value + [e];
      i := i + o;
    }
    DropIn(data, i);
    if i >= |data| {
      ReadFails(all, read, i - from, ty, value, [], from);
      return Failure(IndexError);
    }
    ReadEnds(all, read, i - from, ty, value, data[i..], from);
    return Success((value, i + 1));
  }

  lemma DropIn(data: seq<byte>, i: nat)
    ensures Drop(data, i) == if i < |data| then data[i..] else []
  {
  }

  /**
   `all` is what a loop gives that has read these items in n bytes, accumulated them in `value` (a
   dictionary or a list), and whose remaining turns give `rest`.
   */
  ghost predicate Reads(all: Result<(seq<Element>, nat)>, read: seq<Element>, n: nat, dict: bool, value: seq<Element>,
                        rest: Result<(seq<Element>, nat)>) {
    && value == (if dict then DictOf(read) else read)
    && if rest.Failure? then all == rest
       else all.Success? && all.value.0 == read + rest.value.0 && all.value.1 == n + rest.value.1
  }

  lemma ReadStart(all: Result<(seq<Element>, nat)>, dict: bool)
    ensures Reads(all, [], 0, dict, [], all)
  {
    assert all.Success? ==> [] + all.value.0 == all.value.0;
  }

  lemma ReadFails(all: Result<(seq<Element>, nat)>, read: seq<Element>, n: nat, ty: nat, value: seq<Element>,
                  b: seq<byte>, from: nat)
    requires Reads(all, read, n, ty == 21, value, DecodeItems(ty == 22, b)) && (b == [] || b[0] != END_OF_CONTAINER)
    ensures b == [] ==> IsContainer(Failure(IndexError), ty, from, all)
    ensures b != [] && DecodeElement(b).Failure? ==> IsContainer(Failure(DecodeElement(b).error), ty, from, all)
    ensures b != [] && DecodeElement(b).Success? && ty == 22 && DecodeElement(b).value.0.tag != None
            ==> IsContainer(Failure(ValueError), ty, from, all)
  {
    hide DecodeElement;
  }

  lemma ReadStep(all: Result<(seq<Element>, nat)>, read: seq<Element>, n: nat, ty: nat, value: seq<Element>,
                 b: seq<byte>, e: Element, o: nat)
    requires Reads(all, read, n, ty == 21, value, DecodeItems(ty == 22, b))
    requires b != [] && b[0] != END_OF_CONTAINER && DecodeElement(b) == Success((e, o)) && (ty == 22 ==> e.tag == None)
    ensures Reads(all, read + [e], n + o, ty == 21, if ty == 21 then DictSet(value, e) else value + [e],
                  DecodeItems(ty == 22, Drop(b, o)))
  {
    hide DecodeElement, DictSet;
    var rest := DecodeItems(ty == 22, Drop(b, o));
    assert (read + [e])[..|read|] == read;
    if rest.Success? {
      assert read + ([e] + rest.value.0) == read + [e] + rest.value.0;
    }
  }

  lemma ReadEnds(all: Result<(seq<Element>, nat)>, read: seq<Element>, n: nat, ty: nat, value: seq<Element>,
                 b: seq<byte>, from: nat)
    requires Reads(all, read, n, ty == 21, value, DecodeItems(ty == 22, b)) && b != [] && b[0] == END_OF_CONTAINER
    ensures IsContainer(Success((value, from + n + 1)), ty, from, all)
  {
    assert read + [] == read;
  }
}
