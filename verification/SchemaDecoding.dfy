/** What decoding by a schema accepts and gives, and the order of a structure's members on the wire. */
module SchemaDecoding {
  import opened Wrappers
  import opened Bytes
  import opened Tlv
  import opened Schema
  import opened SchemaTheorems
  import TlvWire

  // ---------------------------------------------------------------------- scalars

  /** The number lies within the bounds that are given. */
  predicate Between(n: int, lo: Option<int>, hi: Option<int>) {
    (lo.Some? ==> lo.value <= n) && (hi.Some? ==> n <= hi.value)
  }

  /** Exactly which data a scalar type accepts, and what it gives for them. */
  lemma ScalarDecodes(t: Type, d: Data)
    requires t.TBytes? || t.TStr? || t.TBool? || t.TInt? || t.TAny?
    ensures DecodeType(t, d) ==
            (match t
             case TBytes(lo, hi) =>
               if d.Octets? && Between(|d.o|, lo, hi) then Success(VBytes(d.o)) else Failure(ValueError)
             case TStr(lo, hi) => if d.Str? && Between(|d.s|, lo, hi) then Success(VStr(d.s)) else Failure(ValueError)
             case TBool => if d.Bool? then Success(VBool(d.b)) else Failure(ValueError)
             case TInt(signed, lo, hi) =>
               if (signed && d.Int? && Between(d.n, lo, hi)) || (!signed && d.UInt? && Between(d.n, lo, hi))
               then Success(VInt(d.n)) else Failure(ValueError)
             case _ => if d.Null? then Failure(ValueError) else Success(VRaw(d)))
  {
  }

  // ---------------------------------------------------------------------- within bounds

  /** No two members of a structure or list have one name, at any depth. */
  predicate NamesUnique(t: Type) {
    match t
    case TNullable(u) => NamesUnique(u)
    case TSeq(_, u) => NamesUnique(u)
    case TStruct(_, _, _, fs) => UniqueSources(fs) && forall i | 0 <= i < |fs| :: NamesUnique(fs[i].ty)
    case TList(_, fs) => UniqueSources(fs) && forall i | 0 <= i < |fs| :: NamesUnique(fs[i].ty)
    case TChoice(_, fs) => forall i | 0 <= i < |fs| :: NamesUnique(fs[i].ty)
    case _ => true
  }

  /** A value of the type, with null only where it may be, every bound kept, and only optional members absent. */
  predicate Within(t: Type, v: Value)
    decreases t
  {
    match (t, v)
    case (TNullable(u), _) => v.VNull? || Within(u, v)
    case (TBool, VBool(_)) => true
    case (TInt(_, lo, hi), VInt(n)) => Between(n, lo, hi)
    case (TBytes(lo, hi), VBytes(o)) => Between(|o|, lo, hi)
    case (TStr(lo, hi), VStr(s)) => Between(|s|, lo, hi)
    case (TAny, VRaw(d)) => !d.Null?
    case (TSeq(_, u), VSeq(vs)) => forall i | 0 <= i < |vs| :: Within(u, vs[i])
    case (TStruct(_, _, _, fs), VObj(attrs)) =>
      forall i | 0 <= i < |fs| :: fs[i].source in attrs && MemberWithin(fs[i], attrs[fs[i].source])
    case (TList(_, fs), VObj(attrs)) =>
      forall i | 0 <= i < |fs| :: fs[i].source in attrs && ListMemberWithin(fs[i], attrs[fs[i].source])
    case (TChoice(_, fs), VChoice(name, inner)) =>
      exists i | 0 <= i < |fs| :: fs[i].source == name && Within(fs[i].ty, inner)
    case _ => false
  }

  predicate MemberWithin(f: Field, v: Option<Value>)
    decreases f
  {
    match v case None => f.optional case Some(x) => Within(f.ty, x)
  }

  /** A required member of a list holds all its values, whose number is bounded. */
  predicate ListMemberWithin(f: Field, v: Option<Value>)
    decreases f
  {
    match v
    case None => f.optional
    case Some(x) =>
      if f.optional then Within(f.ty, x)
      else x.VSeq? && Between(|x.vs|, f.minCount, f.maxCount) && forall i | 0 <= i < |x.vs| :: Within(f.ty, x.vs[i])
  }

  lemma {:induction false} AllWithin(isList: bool, u: Type, items: seq<Element>)
    requires NamesUnique(u) && DecodeAll(isList, u, items).Success?
    ensures var vs := DecodeAll(isList, u, items).value;
            |vs| == |items| && forall i | 0 <= i < |vs| :: Within(u, vs[i])
    decreases u, 5, |items|
  {
    if items != [] {
      if isList { ChoiceWithin(u, items[0]); } else { DecodedWithin(u, items[0].data); }
      AllWithin(isList, u, items[1..]);
      hide Within, NamesUnique, DecodeChoice, DecodeType;
    }
  }

  lemma {:induction false} ChoiceWithin(u: Type, e: Element)
    requires NamesUnique(u) && DecodeChoice(u, e).Success?
    ensures Within(u, DecodeChoice(u, e).value)
    decreases u, 3
  {
    match u
    case TNullable(w) => ChoiceWithin(w, e);
    case TChoice(meta, options) =>
      var i := LastMatching(meta, options, e.tag).value;
      DecodedWithin(options[i].ty, e.data);
    case _ =>
  }

  /** Field j is absent and may be, or its entry's value lies within its bounds. */
  lemma {:induction false} EntryWithin(t: Type, entries: seq<Element>, j: nat)
    requires t.TStruct? && NamesUnique(t) && DecodeFromDict(t, entries).Success? && j < |Ordered(t)|
    ensures var f := Ordered(t)[j];
            var attrs := DecodeFromDict(t, entries).value.attrs;
            f.source in attrs && MemberWithin(f, attrs[f.source])
    decreases t, 3, 0
  {
    var fs := Ordered(t);
    var m := Members(t, fs, entries);
    DecodedAttributes(t, entries);
    StructureAcceptsIff(t, entries);
    assert fs[j] in t.fields;
    hide Ordered, Members, Align, MatchEntries, DecodeValues, Within;
    if Some(j) in m {
      var k :| 0 <= k < |m| && m[k] == Some(j);
      DecodedWithin(fs[j].ty, entries[k].data);
    }
  }

  lemma {:induction false} StructWithin(t: Type, entries: seq<Element>)
    requires t.TStruct? && NamesUnique(t) && DecodeFromDict(t, entries).Success?
    ensures Within(t, DecodeFromDict(t, entries).value)
    decreases t, 3, 1
  {
    var fs := Ordered(t);
    forall i | 0 <= i < |t.fields|
      ensures var attrs := DecodeFromDict(t, entries).value.attrs;
              t.fields[i].source in attrs && MemberWithin(t.fields[i], attrs[t.fields[i].source])
    {
      assert t.fields[i] in multiset(fs);
      var j :| 0 <= j < |fs| && fs[j] == t.fields[i];
      EntryWithin(t, entries, j);
    }
    hide Ordered, MemberWithin, NamesUnique;
  }

  lemma {:induction false} ListWithin(t: Type, n: nat, items: seq<Element>, out: map<string, Option<Value>>)
    requires t.TList? && NamesUnique(t) && n <= |t.fields| && DecodeFromList(t, t.fields[n..], items, out).Success?
    requires forall i | 0 <= i < n ::
             t.fields[i].source in out && ListMemberWithin(t.fields[i], out[t.fields[i].source])
    ensures Within(t, VObj(DecodeFromList(t, t.fields[n..], items, out).value))
    decreases t, 2, |t.fields| - n
  {
    if n < |t.fields| {
      var f := t.fields[n];
      var rest := t.fields[n..];
      assert rest[0] == f && rest[1..] == t.fields[n + 1..] && f in t.fields;
      var k := Run(t.meta, f.tag, items);
      AllWithin(false, f.ty, items[..k]);
      var vs := DecodeAll(false, f.ty, items[..k]).value;
      var v := if !f.optional then Some(VSeq(vs)) else if vs == [] then None else Some(vs[0]);
      hide Within, DecodeAll;
      ListWithin(t, n + 1, items[k..], out[f.source := v]);
    }
  }

  /** Whatever decodes lies within the bounds of its type. */
  lemma {:induction false} DecodedWithin(t: Type, d: Data)
    requires NamesUnique(t) && DecodeType(t, d).Success?
    ensures Within(t, DecodeType(t, d).value)
    decreases t, 4
  {
    match t
    case TNullable(u) => if !d.Null? { DecodedWithin(u, d); }
    case TSeq(isList, u) => AllWithin(isList, u, d.items);
    case TStruct(_, _, _, _) => StructWithin(t, d.items);
    case TList(_, fs) => assert fs[0..] == fs; ListWithin(t, 0, d.items, map[]);
    case TChoice(_, _) =>
    case _ => ScalarDecodes(t, d);
  }

  /** The container each composite type decodes from. */
  lemma KindsDecode(t: Type, d: Data)
    requires DecodeType(t, d).Success?
    ensures t.TSeq? ==> d.Container? && d.kind == if t.isList then List else Array
    ensures t.TStruct? ==> d.Container? && d.kind == Struct
    ensures t.TList? ==> d.Container? && d.kind == List
    ensures !t.TChoice? && (d.Null? ==> t.TNullable?)
  {
  }

  /** A message decodes exactly from an untagged element of its type, whatever follows the element. */
  lemma MessageDecodesIff(t: Type, b: seq<byte>)
    requires t.TStruct? || t.TList?
    ensures DecodeMessage(t, b).Success? <==>
            DecodeElement(b).Success? && DecodeElement(b).value.0.tag.None?
              && DecodeType(t, DecodeElement(b).value.0.data).Success?
    ensures var e := DecodeElement(b);
            DecodeMessage(t, b) == if e.Failure? then Failure(e.error)
                                   else if e.value.0.tag.Some? || !e.value.0.data.Container? then Failure(ValueError)
                                   else DecodeType(t, e.value.0.data)
  {
    hide DecodeElement, DecodeFromDict, DecodeFromList;
  }

  // ---------------------------------------------------------------------- exceptions

  /** What decoding raises for the wrong container, bare data of a choice, and an order that is not decided. */
  lemma DecodeRaises(t: Type, d: Data)
    ensures t.TSeq? && !(d.Container? && d.kind == if t.isList then List else Array) ==>
              DecodeType(t, d) == Failure(ValueError)
    ensures t.TChoice? ==> DecodeType(t, d) == Failure(if d.Null? then ValueError else AttributeError)
    ensures t.TStruct? && d.Container? && d.kind == Struct && t.order == AnyOrder ==>
              DecodeType(t, d) == Failure(NotImplementedError)
    ensures (t.TStruct? || t.TList?) && !(d.Container? && d.kind == if t.TStruct? then Struct else List) ==>
              DecodeType(t, d) == Failure(ValueError)
  {
  }

  /** Without an option for its tag a choice raises, and so does an element where a choice is not declared. */
  lemma ChoiceRaises(t: Type, e: Element)
    ensures t.TChoice? && (forall i | 0 <= i < |t.fields| :: !TagMatches(t.meta, t.fields[i].tag, e.tag)) ==>
              DecodeChoice(t, e) == Failure(ValueError)
    ensures !t.TChoice? && !t.TNullable? ==> DecodeChoice(t, e) == Failure(ValueError)
  {
  }

  /** With only optional members to come the walk fails for an entry left over, and without entries for a member. */
  lemma {:induction false} AlignRaises(fs: seq<Field>, have: seq<Option<nat>>, i: nat)
    requires i <= |fs| && Align(fs, have, i).Failure?
    ensures (forall j | i <= j < |fs| :: fs[j].optional) ==> Align(fs, have, i) == Failure(IndexError)
    ensures have == [] ==> Align(fs, have, i) == Failure(ValueError)
    decreases |fs| - i
  {
    if i < |fs| {
      if have != [] && have[0] == Some(i) { AlignRaises(fs, have[1..], i + 1); }
      else if fs[i].optional { AlignRaises(fs, have, i + 1); }
    }
  }

  /** What encoding raises for a value of another type, an unknown variant and a tag without a profile. */
  lemma EncodeRaises(t: Type, v: Value)
    ensures t.TBool? && !v.VBool? && !v.VNull? ==> EncodeType(t, v) == Failure(ValueError)
    ensures t.TChoice? && !v.VNull? ==> EncodeType(t, v) == Failure(ValueError)
    ensures t.TChoice? && v.VChoice? && (forall f | f in t.fields :: f.source != v.variant) ==>
              EncodeChoice(t, v) == Failure(StopIteration)
    ensures t.TChoice? && !v.VChoice? ==> EncodeChoice(t, v) == Failure(AttributeError)
  {
  }

  /** A list raises for a member the object lacks, and for a run of the wrong length whose elements decode. */
  lemma ListRaises(t: Type, fs: seq<Field>, attrs: map<string, Option<Value>>, items: seq<Element>,
                   out: map<string, Option<Value>>)
    requires t.TList? && fs != [] && forall f | f in fs :: f in t.fields
    ensures fs[0].source !in attrs && !fs[0].tag.ProfileTag? ==> EncodeToList(t, fs, attrs) == Failure(AttributeError)
    ensures var k := Run(t.meta, fs[0].tag, items);
            fs[0].ty < t
              && (DecodeAll(false, fs[0].ty, items[..k]).Success? && !Between(k, fs[0].minCount, fs[0].maxCount) ==>
              DecodeFromList(t, fs, items, out) == Failure(ValueError))
  {
    assert fs[0] in t.fields;
    hide DecodeAll, Run;
  }

  /** A tag that cannot be made lacks the vendor, or the profile, of its class. */
  lemma MakeTagRaises(meta: Meta, t: SchemaTag)
    ensures MakeTag(meta, t).Failure? <==>
            && t.ProfileTag? && !(t.vendor == 0 && t.profile == 0) && meta.implicitProfile.None?
            && (meta.implicitVendor.None? || meta.implicitVendor.value == t.vendor)
    ensures MakeTag(meta, t).Failure? ==> MakeTag(meta, t) == Failure(AttributeError)
  {
  }

  // ---------------------------------------------------------------------- two members

  lemma TwoSorted(f: Field, g: Field)
    requires !f.tag.AnyTag? && TagBelow(g.tag, f.tag)
    ensures SortFields([f, g]) == [g, f]
  {
    TagCmpIsOrder(g.tag, f.tag);
    var fs := [f, g];
    assert fs[..1] == [f] && [f][..0] == [] && SortFields([]) == [];
    assert InsertField(f, []) == [f] && SortFields([f]) == [f] && SortFields(fs) == InsertField(g, [f]);
  }

  lemma TwoWritten(t: Type, attrs: map<string, Option<Value>>, fs: seq<Field>, f: Field, g: Field, a: bool, b: bool)
    requires t.TStruct? && fs == [g, f] && (forall h | h in fs :: h in t.fields)
    requires f.ty == TBool && g.ty == TBool && f.tag.ContextTag? && g.tag.ContextTag?
    requires f.source in attrs && g.source in attrs
    requires attrs[f.source] == Some(VBool(b)) && attrs[g.source] == Some(VBool(a))
    ensures Written(t, fs, attrs) ==
            Success([Element(Some(Context(g.tag.tag)), Bool(a)), Element(Some(Context(f.tag.tag)), Bool(b))])
  {
    var e, d := Element(Some(Context(g.tag.tag)), Bool(a)), Element(Some(Context(f.tag.tag)), Bool(b));
    assert fs[0] == g && fs[1..] == [f] && [f][0] == f && [f][1..] == [];
    assert Written(t, [], attrs) == Success([]);
    assert Written(t, [f], attrs) == Success([d] + []);
    assert [d] + [] == [d] && [e] + [d] == [e, d];
  }

  /** Two booleans declared with the greater tag first are written the other way round. */
  lemma TwoEncode(t: Type, attrs: map<string, Option<Value>>, f: Field, g: Field, a: bool, b: bool)
    requires t.TStruct? && t.order == TagOrder && t.fields == [f, g]
    requires f.ty == TBool && g.ty == TBool && f.tag.ContextTag? && g.tag.ContextTag?
    requires 0 <= g.tag.tag < f.tag.tag < 0x100
    requires f.source in attrs && g.source in attrs
    requires attrs[f.source] == Some(VBool(b)) && attrs[g.source] == Some(VBool(a))
    ensures Ordered(t) == [g, f]
    ensures EncodeMessage(t, VObj(attrs)) ==
            Success([0x15, TlvWire.BoolWire(a), g.tag.tag, TlvWire.BoolWire(b), f.tag.tag, 0x18])
  {
    var e, d := Element(Some(Context(g.tag.tag)), Bool(a)), Element(Some(Context(f.tag.tag)), Bool(b));
    TwoSorted(f, g);
    TwoWritten(t, attrs, [g, f], f, g, a, b);
    StructEncodesAs(t, attrs);
    assert [e, d][..1] == [e] && [e][..0] == [] && DictOf([]) == [] && DictOf([e]) == [e];
    assert DictOf([e, d]) == DictSet([e], d) && DictSet([e], d) == [e] + DictSet([], d) && [e] + [d] == [e, d];
    hide EncodeType, Encode, SortFields, Written, DictOf, DictSet;
    TlvWire.PairStructure(g.tag.tag, a, f.tag.tag, b);
  }

  lemma SwappedRefused(t: Type, fs: seq<Field>, entries: seq<Element>)
    requires t.TStruct? && Ordered(t) == fs && |fs| == |entries| == 2
    requires fs[0].tag.ContextTag? && fs[1].tag.ContextTag? && fs[0].tag != fs[1].tag
    requires entries[0].tag == Some(Context(fs[1].tag.tag)) && entries[1].tag == Some(Context(fs[0].tag.tag))
    ensures DecodeFromDict(t, entries).Failure?
  {
    StructureAcceptsIff(t, entries);
    var m := Members(t, fs, entries);
    assert fs[1..][0] == fs[1];
    assert Matching(t.meta, fs, entries[0].tag) == Some(1) && Matching(t.meta, fs, entries[1].tag) == Some(0);
    hide Matching, MatchEntries, Align, DecodeValues;
    assert m[0] == Some(1) && m[1] == Some(0);
  }

  /** In the wrong order they are refused. */
  lemma TwoSwapped(t: Type, f: Field, g: Field, a: bool, b: bool)
    requires t.TStruct? && t.order == TagOrder && t.fields == [f, g]
    requires f.tag.ContextTag? && g.tag.ContextTag? && 0 <= g.tag.tag < f.tag.tag < 0x100
    ensures DecodeMessage(t, [0x15, TlvWire.BoolWire(b), f.tag.tag, TlvWire.BoolWire(a), g.tag.tag, 0x18]).Failure?
  {
    var entries := [Element(Some(Context(f.tag.tag)), Bool(b)), Element(Some(Context(g.tag.tag)), Bool(a))];
    TwoSorted(f, g);
    assert Ordered(t) == [g, f];
    hide SortFields, Ordered, DecodeElement, DecodeFromDict, TlvWire.BoolWire;
    TlvWire.PairStructure(f.tag.tag, b, g.tag.tag, a);
    SwappedRefused(t, [g, f], entries);
    hide Encode;
    StructMessage(t, [0x15, TlvWire.BoolWire(b), f.tag.tag, TlvWire.BoolWire(a), g.tag.tag, 0x18], entries);
  }

  lemma StructMessage(t: Type, b: seq<byte>, entries: seq<Element>)
    requires t.TStruct? && DecodeElement(b) == Success((Element(None, Container(Struct, entries)), |b|))
    ensures DecodeMessage(t, b) == DecodeFromDict(t, entries)
  {
    hide DecodeElement, DecodeFromDict;
  }

  /** Members declared 1, 0 are written 0, 1; octets in which they stand 1, 0 are refused. */
  lemma DeclaredOneZero(one: Field, zero: Field, t: Type, attrs: map<string, Option<Value>>)
    requires one == Field(ContextTag(1), "one", false, TBool, None, None)
    requires zero == Field(ContextTag(0), "zero", false, TBool, None, None)
    requires t == TStruct(Meta(None, None), TagOrder, false, [one, zero])
    requires attrs == map["one" := Some(VBool(true)), "zero" := Some(VBool(false))]
    ensures EncodeMessage(t, VObj(attrs)) == Success([0x15, 0x28, 0x00, 0x29, 0x01, 0x18])
    ensures DecodeMessage(t, [0x15, 0x29, 0x01, 0x28, 0x00, 0x18]).Failure?
  {
    TwoEncode(t, attrs, one, zero, false, true);
    TwoSwapped(t, one, zero, false, true);
    hide EncodeMessage, DecodeMessage;
  }
}
