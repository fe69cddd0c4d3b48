/** What the TLV codec guarantees: when encoding succeeds, round trips both ways, and prefix-freedom. */
module TlvTheorems {
  import opened Wrappers
  import opened Bytes
  import opened Tlv
  import Utf8

  // ---------------------------------------------------------------------- when encoding succeeds

  lemma WidthFits(n: int)
    ensures 0 <= n < Pow256(WidthBytes(UIntWidth(n))) <==> 0 <= n <= 0xFFFF_FFFF_FFFF_FFFF
    ensures -Pow256(WidthBytes(IntWidth(n))) <= 2 * n < Pow256(WidthBytes(IntWidth(n)))
            <==> -0x8000_0000_0000_0000 <= n <= 0x7FFF_FFFF_FFFF_FFFF
  {
    Pow256Values();
  }

  lemma TagEncodes(t: Option<Tag>)
    ensures TagBytes(t).Success? <==> TagFits(t)
  {
    Pow256Values();
  }

  /** Encoding raises nothing exactly when every tag and value is in range and no float occurs. */
  lemma {:induction false} EncodeSucceedsIff(e: Element)
    ensures Encode(e).Success? <==> TagFits(e.tag) && Fits(e.data)
    decreases e, 1
  {
    TagEncodes(e.tag);
    match e.data
    case UInt(n) => WidthFits(n);
    case Int(n) => WidthFits(n);
    case Str(s) => WidthFits(|Utf8.Encode(s)|);
    case Octets(o) => WidthFits(|o|);
    case Container(_, items) => ItemsEncodeIff(items);
    case _ =>
  }

  lemma {:induction false} ItemsEncodeIff(items: seq<Element>)
    ensures EncodeItems(items).Success? <==> forall i | 0 <= i < |items| :: TagFits(items[i].tag) && Fits(items[i].data)
    decreases items, 0
  {
    if items != [] {
      EncodeSucceedsIff(items[0]);
      ItemsEncodeIff(items[1..]);
      assert forall i | 0 < i < |items| :: items[i] == items[1..][i - 1];
    }
  }

  // ---------------------------------------------------------------------- decode after encode

  lemma TakeDrop3<T>(a: seq<T>, b: seq<T>, c: seq<T>, rest: seq<T>)
    ensures Take(a + b + c + rest, |a|) == a
    ensures Take(Drop(a + b + c + rest, |a|), |b|) == b
    ensures Take(Drop(a + b + c + rest, |a| + |b|), |c|) == c
    ensures Drop(a + b + c + rest, |a| + |b| + |c|) == rest
  {
  }

  lemma TagRoundTrip(t: Option<Tag>, rest: seq<byte>)
    requires TagBytes(t).Success?
    ensures var (form, b) := TagBytes(t).value;
            DecodeTag(form, b + rest) == Success((t, |b|))
  {
    var (form, b) := TagBytes(t).value;
    TakeDropOfConcat(b, rest);
    match t
    case None =>
    case Some(Context(n)) =>
    case Some(Common(n)) => FromLeOfLe(n, |b|);
    case Some(Implicit(n)) => FromLeOfLe(n, |b|);
    case Some(Qualified(v, p, n)) =>
      var w := if n <= 65535 then 2 else 4;
      assert b == Le(v, 2) + Le(p, 2) + Le(n, w);
      TakeDrop3(Le(v, 2), Le(p, 2), Le(n, w), rest);
      FromLeOfLe(v, 2);
      FromLeOfLe(p, 2);
      FromLeOfLe(n, w);
  }

  lemma PrefixedRoundTrip(first: int, data: seq<byte>, rest: seq<byte>)
    requires LengthPrefixed(first, data).Success?
    ensures var (ty, b) := LengthPrefixed(first, data).value;
            first <= ty <= first + 3 && Prefixed(ty - first, b + rest) == (data, |b|)
  {
    var l := Le(|data|, WidthBytes(UIntWidth(|data|)));
    FromLeOfLe(|data|, |l|);
    TakeDropOfConcat(l, data + rest);
    TakeDropOfConcat(data, rest);
    assert l + data + rest == l + (data + rest);
  }

  ghost predicate ScalarComesBack(d: Data, rest: seq<byte>)
    requires !d.Container? && Payload(d).Success?
  {
    var (ty, b) := Payload(d).value;
    !(21 <= ty <= 23) && DecodeScalar(ty, b + rest) == Success((d, |b|))
  }

  lemma NumberRoundTrip(d: Data, rest: seq<byte>)
    requires (d.UInt? || d.Int?) && Payload(d).Success?
    ensures ScalarComesBack(d, rest)
  {
    var b := Payload(d).value.1;
    TakeDropOfConcat(b, rest);
    if d.UInt? { FromLeOfLe(d.n, |b|); } else { SignedRoundTrip(d.n, |b|); }
  }

  lemma StringRoundTrip(d: Data, rest: seq<byte>)
    requires (d.Str? || d.Octets?) && Payload(d).Success?
    ensures ScalarComesBack(d, rest)
  {
    match d
    case Str(s) => PrefixedRoundTrip(12, Utf8.Encode(s), rest); Utf8.RoundTrip(s);
    case Octets(o) => PrefixedRoundTrip(16, o, rest);
  }

  lemma ScalarRoundTrip(d: Data, rest: seq<byte>)
    requires !d.Container? && Payload(d).Success?
    ensures ScalarComesBack(d, rest)
  {
    match d
    case UInt(_) => NumberRoundTrip(d, rest);
    case Int(_) => NumberRoundTrip(d, rest);
    case Str(_) => StringRoundTrip(d, rest);
    case Octets(_) => StringRoundTrip(d, rest);
    case _ =>
  }

  lemma {:induction false} SetOfFreshKey(d: seq<Element>, e: Element)
    requires forall i | 0 <= i < |d| :: d[i].tag != e.tag
    ensures DictSet(d, e) == d + [e]
  {
    if d != [] {
      SetOfFreshKey(d[1..], e);
      assert d == [d[0]] + d[1..];
    }
  }

  lemma {:induction false} DictOfDistinct(items: seq<Element>)
    requires DistinctTags(items)
    ensures DictOf(items) == items
  {
    if items != [] {
      var n := |items| - 1;
      DictOfDistinct(items[..n]);
      SetOfFreshKey(items[..n], items[n]);
      assert items == items[..n] + [items[n]];
    }
  }

  /** The layout of an encoding: control octet, tag, payload. */
  lemma Layout(e: Element, tag: seq<byte>, body: seq<byte>, rest: seq<byte>)
    requires Encode(e).Success? && tag == TagBytes(e.tag).value.1 && body == Payload(e.data).value.1
    ensures var b := Encode(e).value + rest;
            && b[0] / 32 == TagBytes(e.tag).value.0 && b[0] % 32 == Payload(e.data).value.0
            && b[1..] == tag + (body + rest) && Drop(b, 1 + |tag|) == body + rest
            && |Encode(e).value| == 1 + |tag| + |body|
  {
    hide Payload, TagBytes;
    var ty, form := Payload(e.data).value.0, TagBytes(e.tag).value.0;
    assert Encode(e).value + rest == [ty + 32 * form] + (tag + (body + rest));
    assert Encode(e).value + rest == ([ty + 32 * form] + tag) + (body + rest);
    TakeDropOfConcat([ty + 32 * form] + tag, body + rest);
  }

  /** `b` starts with an encoding of e of n bytes. */
  ghost predicate StartsWith(b: seq<byte>, e: Element, n: nat) {
    var r := DecodeElement(b);
    r.Success? && r.value.0 == e && r.value.1 == n
  }

  /** Decoding an encoded element gives it back, whatever follows, and consumes exactly its bytes. */
  lemma {:induction false} RoundTrip(e: Element, rest: seq<byte>)
    requires Encode(e).Success? && Shaped(e.data)
    ensures StartsWith(Encode(e).value + rest, e, |Encode(e).value|)
    decreases e, 1
  {
    var tag, body := TagBytes(e.tag).value.1, Payload(e.data).value.1;
    Layout(e, tag, body, rest);
    TagRoundTrip(e.tag, body + rest);
    if e.data.Container? {
      ContainerRoundTrip(e, Encode(e).value + rest, |tag|, body, rest);
    } else {
      ScalarRoundTrip(e.data, rest);
      ScalarStep(Encode(e).value + rest, e, |tag|, |body|);
    }
  }

  lemma ScalarStep(b: seq<byte>, e: Element, i: nat, n: nat)
    requires b != [] && DecodeTag(b[0] / 32, b[1..]) == Success((e.tag, i)) && !(21 <= b[0] % 32 <= 23)
    requires DecodeScalar(b[0] % 32, Drop(b, 1 + i)) == Success((e.data, n))
    ensures StartsWith(b, e, 1 + i + n)
  {
    hide DecodeTag, DecodeScalar, DecodeItems;
  }

  lemma {:induction false} ContainerRoundTrip(e: Element, b: seq<byte>, i: nat, body: seq<byte>, rest: seq<byte>)
    requires e.data.Container? && Shaped(e.data) && Payload(e.data).Success? && body == Payload(e.data).value.1
    requires b != [] && DecodeTag(b[0] / 32, b[1..]) == Success((e.tag, i)) && b[0] % 32 == KindCode(e.data.kind)
    requires Drop(b, 1 + i) == body + rest
    ensures StartsWith(b, e, 1 + i + |body|)
    decreases e, 0
  {
    hide DecodeTag, DecodeElement, DecodeItems, DictOf;
    var items, kind := e.data.items, e.data.kind;
    ItemsRoundTrip(items, kind.Array?, rest);
    assert body + rest == EncodeItems(items).value + ([END_OF_CONTAINER] + rest);
    if kind.Struct? {
      DictOfDistinct(items);
    }
    ContainerStep(b, e.tag, i, kind, items, |body|);
  }

  /** `b` starts with these items and their end-of-container octet, n bytes in all. */
  ghost predicate StartsWithItems(untagged: bool, b: seq<byte>, items: seq<Element>, n: nat) {
    var r := DecodeItems(untagged, b);
    r.Success? && r.value.0 == items && r.value.1 == n
  }

  lemma ContainerStep(b: seq<byte>, tag: Option<Tag>, i: nat, kind: Kind, items: seq<Element>, n: nat)
    requires b != [] && DecodeTag(b[0] / 32, b[1..]) == Success((tag, i)) && b[0] % 32 == KindCode(kind)
    requires StartsWithItems(kind.Array?, Drop(b, 1 + i), items, n)
    requires kind.Struct? ==> DictOf(items) == items
    ensures StartsWith(b, Element(tag, Container(kind, items)), 1 + i + n)
  {
    hide DecodeTag, DecodeScalar, DecodeItems;
  }

  lemma ItemsStep(untagged: bool, b: seq<byte>, items: seq<Element>, o: nat, n: nat)
    requires items != [] && b != [] && b[0] != END_OF_CONTAINER && (untagged ==> items[0].tag == None)
    requires StartsWith(b, items[0], o)
    requires StartsWithItems(untagged, Drop(b, o), items[1..], n)
    ensures StartsWithItems(untagged, b, items, o + n)
  {
    assert items == [items[0]] + items[1..];
  }

  lemma {:induction false} ItemsRoundTrip(items: seq<Element>, untagged: bool, rest: seq<byte>)
    requires EncodeItems(items).Success?
    requires forall i | 0 <= i < |items| :: Shaped(items[i].data) && (untagged ==> items[i].tag == None)
    ensures StartsWithItems(untagged, EncodeItems(items).value + ([END_OF_CONTAINER] + rest),
                            items, |EncodeItems(items).value| + 1)
    decreases items, 0
  {
    hide DecodeElement, Encode, TagBytes, Payload;
    var tail := [END_OF_CONTAINER] + rest;
    if items == [] {
      assert EncodeItems(items).value + tail == tail;
    } else {
      var head, more := Encode(items[0]).value, EncodeItems(items[1..]).value;
      RoundTrip(items[0], more + tail);
      ItemsRoundTrip(items[1..], untagged, rest);
      assert head + more + tail == head + (more + tail);
      TakeDropOfConcat(head, more + tail);
      ItemsStep(untagged, head + (more + tail), items, |head|, |more| + 1);
    }
  }

  /** Encodings are prefix-free: a byte string splits in at most one way into an element and a rest. */
  lemma PrefixFree(e: Element, f: Element, r: seq<byte>, s: seq<byte>)
    requires Encode(e).Success? && Encode(f).Success? && Shaped(e.data) && Shaped(f.data)
    requires Encode(e).value + r == Encode(f).value + s
    ensures e == f && r == s
  {
    RoundTrip(e, r);
    RoundTrip(f, s);
    assert r == (Encode(e).value + r)[|Encode(e).value|..];
  }

  // ---------------------------------------------------------------------- encode after decode

  /** Number of bytes of an element's encoding, 0 if it has none. */
  function Size(e: Element): nat {
    if Encode(e).Success? then |Encode(e).value| else 0
  }

  function TotalSize(items: seq<Element>): nat {
    if items == [] then 0 else Size(items[0]) + TotalSize(items[1..])
  }

  lemma {:induction false} TotalSizeAppend(items: seq<Element>, e: Element)
    ensures TotalSize(items + [e]) == TotalSize(items) + Size(e)
  {
    if items != [] {
      TotalSizeAppend(items[1..], e);
      assert (items + [e])[1..] == items[1..] + [e];
    }
  }

  ghost predicate All(items: seq<Element>, p: Element -> bool) {
    forall i | 0 <= i < |items| :: p(items[i])
  }

  lemma {:induction false} DictSetFacts(d: seq<Element>, e: Element, p: Element -> bool)
    requires DistinctTags(d) && All(d, p) && p(e)
    ensures DistinctTags(DictSet(d, e)) && All(DictSet(d, e), p)
    ensures forall i | 0 <= i < |DictSet(d, e)| ::
            DictSet(d, e)[i].tag == e.tag || exists j | 0 <= j < |d| :: d[j].tag == DictSet(d, e)[i].tag
    ensures TotalSize(DictSet(d, e)) <= TotalSize(d) + Size(e)
  {
    if d != [] && d[0].tag != e.tag {
      DictSetFacts(d[1..], e, p);
      var s := DictSet(d[1..], e);
      assert DictSet(d, e)[1..] == s;
      forall i | 0 < i < |DictSet(d, e)|
        ensures DictSet(d, e)[i].tag == e.tag || exists j | 0 < j < |d| :: d[j].tag == DictSet(d, e)[i].tag
      {
        assert DictSet(d, e)[i] == s[i - 1];
        if s[i - 1].tag != e.tag {
          var j :| 0 <= j < |d[1..]| && d[1..][j].tag == s[i - 1].tag;
          assert d[j + 1].tag == s[i - 1].tag;
        }
      }
    }
  }

  lemma {:induction false} DictOfFacts(items: seq<Element>, p: Element -> bool)
    requires All(items, p)
    ensures DistinctTags(DictOf(items)) && All(DictOf(items), p)
    ensures TotalSize(DictOf(items)) <= TotalSize(items)
  {
    if items != [] {
      var n := |items| - 1;
      DictOfFacts(items[..n], p);
      DictSetFacts(DictOf(items[..n]), items[n], p);
      TotalSizeAppend(items[..n], items[n]);
      assert items == items[..n] + [items[n]];
    }
  }

  lemma DecodedTagFits(form: nat, b: seq<byte>)
    requires DecodeTag(form, b).Success?
    ensures var (t, i) := DecodeTag(form, b).value;
            TagBytes(t).Success? && |TagBytes(t).value.1| <= i
  {
    var (t, i) := DecodeTag(form, b).value;
    FromLeBound(Take(b, 2));
    FromLeBound(Take(b, 4));
    FromLeBound(Take(Drop(b, 2), 2));
    FromLeBound(Take(Drop(b, 4), 2));
    FromLeBound(Take(Drop(b, 4), 4));
    Pow256Values();
    Pow256Mono(|Take(b, 2)|, 2);
    Pow256Mono(|Take(b, 4)|, 4);
    Pow256Mono(|Take(Drop(b, 2), 2)|, 2);
    Pow256Mono(|Take(Drop(b, 4), 2)|, 2);
    Pow256Mono(|Take(Drop(b, 4), 4)|, 4);
    TagEncodes(t);
  }

  /** A value read from w bytes is written back in at most w bytes. */
  lemma MinimalWidth(b: seq<byte>, w: nat)
    requires w <= 3 && |b| <= WidthBytes(w)
    ensures UIntWidth(FromLe(b)) <= w && IntWidth(FromSigned(b)) <= w
    ensures FromLe(b) <= 0xFFFF_FFFF_FFFF_FFFF
    ensures -0x8000_0000_0000_0000 <= FromSigned(b) <= 0x7FFF_FFFF_FFFF_FFFF
  {
    FromLeBound(b);
    Pow256Mono(|b|, WidthBytes(w));
    Pow256Values();
  }

  lemma StringReencodes(first: int, w: nat, b: seq<byte>)
    requires w <= 3
    ensures var (str, n) := Prefixed(w, b);
            LengthPrefixed(first, str).Success? && |LengthPrefixed(first, str).value.1| <= n
  {
    MinimalWidth(Take(b, WidthBytes(w)), w);
    WidthFits(|Prefixed(w, b).0|);
  }

  lemma NumberReencodes(w: nat, b: seq<byte>)
    requires w <= 3
    ensures var d := UInt(FromLe(Take(b, WidthBytes(w))));
            Payload(d).Success? && |Payload(d).value.1| <= WidthBytes(w)
    ensures var d := Int(FromSigned(Take(b, WidthBytes(w))));
            Payload(d).Success? && |Payload(d).value.1| <= WidthBytes(w)
  {
    MinimalWidth(Take(b, WidthBytes(w)), w);
    WidthFits(FromLe(Take(b, WidthBytes(w))));
    WidthFits(FromSigned(Take(b, WidthBytes(w))));
  }

  lemma ScalarReencodes(ty: nat, b: seq<byte>)
    requires DecodeScalar(ty, b).Success?
    ensures var (d, n) := DecodeScalar(ty, b).value;
            !d.Container? && (FloatFree(d) ==> Payload(d).Success?)
              && (Payload(d).Success? ==> |Payload(d).value.1| <= n)
  {
    if ty <= 3 {
      NumberReencodes(ty, b);
    } else if ty <= 7 {
      NumberReencodes(ty - 4, b);
    } else if 12 <= ty <= 15 {
      StringReencodes(12, ty - 12, b);
      Utf8.Canonical(Prefixed(ty - 12, b).0);
    } else if 16 <= ty <= 19 {
      StringReencodes(16, ty - 16, b);
    }
  }

  /** Well-shaped, and encodable unless a float is left in it. */
  ghost predicate Reencodable(e: Element) {
    Shaped(e.data) && (FloatFree(e.data) ==> Encode(e).Success?)
  }

  /**
   Whatever decodes to a float-free element re-encodes, to no more bytes than were consumed: a
   non-minimal width, a truncated string or a repeated key can only make the input longer.
   */
  lemma {:induction false} ReencodeFits(b: seq<byte>)
    requires DecodeElement(b).Success?
    ensures var (e, n) := DecodeElement(b).value;
            Reencodable(e) && Size(e) <= n
    decreases |b|, 0
  {
    var (tag, i) := DecodeTag(b[0] / 32, b[1..]).value;
    DecodedTagFits(b[0] / 32, b[1..]);
    hide DecodeTag, DecodeScalar, DecodeItems, TagBytes, Payload, Encode, DictOf, Size, All;
    var body := Drop(b, 1 + i);
    var ty := b[0] % 32;
    if 21 <= ty <= 23 {
      var (items, n) := DecodeItems(ty == 22, body).value;
      ItemsReencode(ty == 22, body);
      DictOfFacts(items, Reencodable);
      ContainerReencodes(tag, KindOf(ty), if ty == 21 then DictOf(items) else items);
    } else {
      ScalarReencodes(ty, body);
      SizeOf(Element(tag, DecodeScalar(ty, body).value.0));
    }
  }

  lemma SizeOf(e: Element)
    requires TagBytes(e.tag).Success?
    ensures Encode(e).Success? <==> Payload(e.data).Success?
    ensures Encode(e).Success? ==> Size(e) == 1 + |TagBytes(e.tag).value.1| + |Payload(e.data).value.1|
  {
  }

  lemma ContainerReencodes(tag: Option<Tag>, kind: Kind, items: seq<Element>)
    requires TagBytes(tag).Success? && All(items, Reencodable)
    requires kind.Array? ==> forall i | 0 <= i < |items| :: items[i].tag == None
    requires kind.Struct? ==> DistinctTags(items)
    ensures var e := Element(tag, Container(kind, items));
            Reencodable(e) && Size(e) <= 2 + |TagBytes(tag).value.1| + TotalSize(items)
  {
    KeptItemsEncode(items);
    SizeOf(Element(tag, Container(kind, items)));
  }

  lemma {:induction false} ItemsReencode(untagged: bool, b: seq<byte>)
    requires DecodeItems(untagged, b).Success?
    ensures var (items, n) := DecodeItems(untagged, b).value;
            All(items, Reencodable) && TotalSize(items) < n
            && (untagged ==> forall i | 0 <= i < |items| :: items[i].tag == None)
    decreases |b|, 1
  {
    if b[0] != END_OF_CONTAINER {
      ReencodeFits(b);
      var o := DecodeElement(b).value.1;
      ItemsReencode(untagged, Drop(b, o));
      var items := DecodeItems(untagged, b).value.0;
      assert items[1..] == DecodeItems(untagged, Drop(b, o)).value.0;
      assert forall i | 0 < i < |items| :: items[i] == items[1..][i - 1];
    }
  }

  lemma {:induction false} KeptItemsEncode(items: seq<Element>)
    requires All(items, Reencodable)
    ensures (forall i | 0 <= i < |items| :: FloatFree(items[i].data)) ==> EncodeItems(items).Success?
    ensures EncodeItems(items).Success? ==> |EncodeItems(items).value| == TotalSize(items)
  {
    if items != [] {
      KeptItemsEncode(items[1..]);
      assert forall i | 0 < i < |items| :: items[i] == items[1..][i - 1];
    }
  }

  /** Decode, encode, decode: nothing is lost, and the canonical form is never longer than the input. */
  lemma DecodeEncodeDecode(b: seq<byte>)
    requires DecodeElement(b).Success? && FloatFree(DecodeElement(b).value.0.data)
    ensures var (e, n) := DecodeElement(b).value;
            && Encode(e).Success?
            && |Encode(e).value| <= n
            && StartsWith(Encode(e).value, e, |Encode(e).value|)
  {
    ReencodeFits(b);
    var e := DecodeElement(b).value.0;
    RoundTrip(e, []);
    assert Encode(e).value + [] == Encode(e).value;
  }

  // ---------------------------------------------------------------------- what a dictionary holds

  /** What the dictionary holds for a tag. */
  function Get(d: seq<Element>, tag: Option<Tag>): Option<Data> {
    if d == [] then None else if d[0].tag == tag then Some(d[0].data) else Get(d[1..], tag)
  }

  function Tags(d: seq<Element>): seq<Option<Tag>> {
    if d == [] then [] else [d[0].tag] + Tags(d[1..])
  }

  lemma {:induction false} SetGet(d: seq<Element>, e: Element, tag: Option<Tag>)
    ensures Get(DictSet(d, e), tag) == if tag == e.tag then Some(e.data) else Get(d, tag)
  {
    if d != [] && d[0].tag != e.tag {
      SetGet(d[1..], e, tag);
      assert ([d[0]] + DictSet(d[1..], e))[1..] == DictSet(d[1..], e);
    } else if d != [] {
      assert ([e] + d[1..])[1..] == d[1..];
    }
  }

  lemma {:induction false} SetTags(d: seq<Element>, e: Element)
    ensures Tags(DictSet(d, e)) == if e.tag in Tags(d) then Tags(d) else Tags(d) + [e.tag]
  {
    if d == [] {
      assert [e][1..] == [];
    } else if d[0].tag == e.tag {
      assert ([e] + d[1..])[1..] == d[1..];
    } else {
      SetTags(d[1..], e);
      assert ([d[0]] + DictSet(d[1..], e))[1..] == DictSet(d[1..], e);
      Regroup([d[0].tag], Tags(d[1..]), [e.tag]);
    }
  }

  /** The data of the last item with the tag. */
  function LastOf(items: seq<Element>, tag: Option<Tag>): Option<Data> {
    if items == [] then None
    else
      var last := items[|items| - 1];
      if last.tag == tag then Some(last.data) else LastOf(items[..|items| - 1], tag)
  }

  /** The tags in the order in which they first appear. */
  function FirstTags(items: seq<Element>): seq<Option<Tag>> {
    if items == [] then []
    else
      var before, tag := FirstTags(items[..|items| - 1]), items[|items| - 1].tag;
      if tag in before then before else before + [tag]
  }

  /** The dictionary of a structure keeps the place of the first entry of a tag and the data of the last. */
  lemma {:induction false} DictOfIs(items: seq<Element>)
    ensures Tags(DictOf(items)) == FirstTags(items)
    ensures forall tag :: Get(DictOf(items), tag) == LastOf(items, tag)
  {
    if items != [] {
      var before, e := items[..|items| - 1], items[|items| - 1];
      DictOfIs(before);
      SetTags(DictOf(before), e);
      forall tag ensures Get(DictOf(items), tag) == LastOf(items, tag) {
        SetGet(DictOf(before), e, tag);
      }
    }
  }
}
