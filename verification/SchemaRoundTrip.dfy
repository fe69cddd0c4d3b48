/**
 The round trip of the schema-directed codec: for every well-formed schema and every conforming value,
 encoding succeeds and decoding gives the value's normal form, through the typed layer and the byte layer.
 The normal form differs from the value in two places only: an optional empty list of a structure comes
 back as absent, and a required member of a tagged list comes back wrapped in a one-element list.
 */
module SchemaRoundTrip {
  import opened Wrappers
  import opened Bytes
  import opened Tlv
  import opened Schema
  import opened SchemaTheorems
  import TlvTheorems

  // ---------------------------------------------------------------------- well-formed schemas

  predicate IsChoice(t: Type) {
    t.TChoice? || (t.TNullable? && IsChoice(t.inner))
  }

  /** Every wire tag can be written and is recognised by its own member only. */
  predicate UniqueTags(meta: Meta, fs: seq<Field>) {
    forall f, g | f in fs && g in fs ::
      && MakeTag(meta, g.tag).Success? && TagFits(MakeTag(meta, g.tag).value)
      && (TagMatches(meta, f.tag, MakeTag(meta, g.tag).value) <==> f.source == g.source)
  }

  predicate CountsAllowed(f: Field) {
    InBounds(1, f.minCount, f.maxCount) && (f.optional ==> InBounds(0, f.minCount, f.maxCount))
  }

  /**
   Distinct names and tags, choices only as the elements of a list (elsewhere they have no tag of their
   own to be chosen by), and an order the decoder implements.
   */
  predicate WellFormed(t: Type) {
    match t
    case TNullable(u) => WellFormed(u)
    case TSeq(isList, u) => WellFormed(u) && if isList then u.TChoice? else !IsChoice(u)
    case TStruct(meta, order, _, fs) =>
      order != AnyOrder && UniqueSources(fs) && UniqueTags(meta, fs)
      && forall i | 0 <= i < |fs| :: WellFormed(fs[i].ty) && !IsChoice(fs[i].ty)
    case TList(meta, fs) =>
      UniqueSources(fs) && UniqueTags(meta, fs)
      && forall i | 0 <= i < |fs| :: WellFormed(fs[i].ty) && !IsChoice(fs[i].ty) && CountsAllowed(fs[i])
    case TChoice(meta, fs) =>
      UniqueSources(fs) && UniqueTags(meta, fs)
      && forall i | 0 <= i < |fs| :: WellFormed(fs[i].ty) && !IsChoice(fs[i].ty)
    case _ => true
  }

  predicate SourcesOf(fs: seq<Field>, attrs: map<string, Option<Value>>) {
    && (forall f | f in fs :: f.source in attrs)
    && (forall s | s in attrs :: exists f :: f in fs && f.source == s)
  }

  /** The values a message object of this type may hold. */
  predicate Conforms(t: Type, v: Value)
    decreases t
  {
    match (t, v)
    case (TNullable(_), VNull) => true
    case (TNullable(u), _) => Conforms(u, v)
    case (TBool, VBool(_)) => true
    case (TInt(signed, lo, hi), VInt(n)) => InBounds(n, lo, hi) && Fits(if signed then Int(n) else UInt(n))
    case (TBytes(lo, hi), VBytes(o)) => InBounds(|o|, lo, hi) && Fits(Octets(o))
    case (TStr(lo, hi), VStr(s)) => InBounds(|s|, lo, hi) && Fits(Str(s))
    case (TAny, VRaw(d)) => Shaped(d) && Fits(d) && d != Null
    case (TSeq(_, u), VSeq(vs)) => forall i | 0 <= i < |vs| :: Conforms(u, vs[i])
    case (TStruct(_, _, _, fs), VObj(attrs)) =>
      SourcesOf(fs, attrs) && forall i | 0 <= i < |fs| :: MemberConforms(t, fs[i], attrs[fs[i].source])
    case (TList(_, fs), VObj(attrs)) =>
      SourcesOf(fs, attrs) && forall i | 0 <= i < |fs| :: MemberConforms(t, fs[i], attrs[fs[i].source])
    case (TChoice(_, fs), VChoice(name, inner)) =>
      exists i | 0 <= i < |fs| :: fs[i].source == name && Conforms(fs[i].ty, inner)
    case _ => false
  }

  predicate MemberConforms(t: Type, f: Field, v: Option<Value>)
    requires f < t
    decreases f
  {
    match v case None => f.optional case Some(x) => Conforms(f.ty, x)
  }

  /** What decoding gives for an encoded value. */
  function Normalize(t: Type, v: Value): Value
    decreases t
  {
    match (t, v)
    case (TNullable(u), _) => if v.VNull? then v else Normalize(u, v)
    case (TSeq(_, u), VSeq(vs)) => VSeq(seq(|vs|, i requires 0 <= i < |vs| => Normalize(u, vs[i])))
    case (TStruct(_, _, _, fs), VObj(attrs)) => VObj(map s | s in attrs :: NormalAttr(t, fs, s, attrs[s]))
    case (TList(_, fs), VObj(attrs)) => VObj(map s | s in attrs :: NormalAttr(t, fs, s, attrs[s]))
    case (TChoice(_, fs), VChoice(name, inner)) =>
      (match Named(fs, name) case None => v case Some(i) => VChoice(name, Normalize(fs[i].ty, inner)))
    case _ => v
  }

  function NormalAttr(t: Type, fs: seq<Field>, s: string, v: Option<Value>): Option<Value>
    requires (t.TStruct? || t.TList?) && fs == t.fields
    decreases fs
  {
    match Named(fs, s)
    case None => v
    case Some(i) => NormalMember(t.TStruct?, fs[i], v)
  }

  function NormalMember(isStruct: bool, f: Field, v: Option<Value>): Option<Value>
    decreases f
  {
    if isStruct && Skipped(f, v) then None
    else match v
      case None => None
      case Some(x) => Some(if isStruct || f.optional then Normalize(f.ty, x) else VSeq([Normalize(f.ty, x)]))
  }

  /** No optional empty list in a structure and no required member in a tagged list, at any depth. */
  predicate Plain(t: Type, v: Value)
    decreases t
  {
    match (t, v)
    case (TNullable(u), _) => v.VNull? || Plain(u, v)
    case (TSeq(_, u), VSeq(vs)) => forall i | 0 <= i < |vs| :: Plain(u, vs[i])
    case (TStruct(_, _, _, fs), VObj(attrs)) =>
      forall i | 0 <= i < |fs| && fs[i].source in attrs :: PlainMember(true, fs[i], attrs[fs[i].source])
    case (TList(_, fs), VObj(attrs)) =>
      forall i | 0 <= i < |fs| && fs[i].source in attrs :: PlainMember(false, fs[i], attrs[fs[i].source])
    case (TChoice(_, fs), VChoice(name, inner)) =>
      (match Named(fs, name) case None => true case Some(i) => Plain(fs[i].ty, inner))
    case _ => true
  }

  predicate PlainMember(isStruct: bool, f: Field, v: Option<Value>)
    decreases f
  {
    match v
    case None => true
    case Some(x) => Plain(f.ty, x) && if isStruct then !(f.optional && x == VSeq([])) else f.optional
  }

  // ---------------------------------------------------------------------- the laws

  /**
   Whole messages: a conforming message encodes to bytes, and decoding those bytes, whatever follows them,
   gives its normal form.
   */
  lemma MessageRoundTrip(t: Type, v: Value, rest: seq<byte>)
    requires (t.TStruct? || t.TList?) && WellFormed(t) && Conforms(t, v)
    ensures EncodeMessage(t, v).Success?
    ensures DecodeMessage(t, EncodeMessage(t, v).value + rest) == Success(Normalize(t, v))
  {
    TypeRoundTrip(t, v);
    var e := Element(None, EncodeType(t, v).value);
    EncodesContainer(t, v);
    hide EncodeType, DecodeType, Normalize, DecodeElement, Encode, Shaped, Fits;
    TlvTheorems.EncodeSucceedsIff(e);
    TlvTheorems.RoundTrip(e, rest);
  }

  /** A message comes back unchanged from its bytes exactly when it is plain. */
  lemma MessageComesBackIff(t: Type, v: Value, rest: seq<byte>)
    requires (t.TStruct? || t.TList?) && WellFormed(t) && Conforms(t, v)
    ensures EncodeMessage(t, v).Success?
    ensures DecodeMessage(t, EncodeMessage(t, v).value + rest) == Success(v) <==> Plain(t, v)
  {
    hide EncodeMessage, DecodeMessage, Normalize, Plain, Conforms, WellFormed;
    MessageRoundTrip(t, v, rest);
    NormalFormIffPlain(t, v);
  }

  /** The value itself comes back exactly when it is plain. */
  lemma {:induction false} NormalFormIffPlain(t: Type, v: Value)
    requires WellFormed(t) && Conforms(t, v)
    ensures Normalize(t, v) == v <==> Plain(t, v)
    decreases t, 2
  {
    match (t, v)
    case (TNullable(u), _) => if !v.VNull? { NormalFormIffPlain(u, v); }
    case (TSeq(_, u), VSeq(vs)) =>
      forall i | 0 <= i < |vs| ensures Normals(u, vs)[i] == vs[i] <==> Plain(u, vs[i]) {
        NormalFormIffPlain(u, vs[i]);
      }
      assert Normalize(t, v) == VSeq(Normals(u, vs));
    case (TStruct(_, _, _, fs), VObj(attrs)) => ObjectIffPlain(t, fs, attrs);
    case (TList(_, fs), VObj(attrs)) => ObjectIffPlain(t, fs, attrs);
    case (TChoice(_, fs), VChoice(name, inner)) =>
      var i :| 0 <= i < |fs| && fs[i].source == name && Conforms(fs[i].ty, inner);
      NamedIs(fs, i);
      NormalFormIffPlain(fs[i].ty, inner);
    case _ =>
  }

  /** Every conforming value encodes, and decodes to its normal form. */
  lemma {:induction false} TypeRoundTrip(t: Type, v: Value)
    requires WellFormed(t) && !IsChoice(t) && Conforms(t, v)
    ensures Decodes(t, v)
    decreases t, 3
  {
    match (t, v)
    case (TNullable(u), _) => if !v.VNull? { TypeRoundTrip(u, v); }
    case (TSeq(isList, u), VSeq(vs)) => SeqRoundTrip(t, vs);
    case (TStruct(_, _, _, fs), VObj(attrs)) =>
      forall i | 0 <= i < |fs| ensures Skipped(fs[i], attrs[fs[i].source]) || MemberOk(fs[i], attrs[fs[i].source]) {
        MemberRoundTrip(t, fs[i], attrs[fs[i].source]);
      }
      OrderedKeeps(t);
      StructReady(t, attrs);
      StructRoundTrip(t, attrs);
    case (TList(_, fs), VObj(attrs)) =>
      forall i | 0 <= i < |fs|
        ensures (fs[i].optional && attrs[fs[i].source] == None) || MemberOk(fs[i], attrs[fs[i].source])
      {
        MemberRoundTrip(t, fs[i], attrs[fs[i].source]);
      }
      ListRoundTrip(t, attrs);
    case _ =>
  }

  lemma {:induction false} ChoiceRoundTrip(t: Type, v: Value)
    requires t.TChoice? && WellFormed(t) && Conforms(t, v)
    ensures ChoiceDecodes(t, v)
    decreases t, 2
  {
    var i :| 0 <= i < |t.fields| && t.fields[i].source == v.variant && Conforms(t.fields[i].ty, v.value);
    NamedIs(t.fields, i);
    TypeRoundTrip(t.fields[i].ty, v.value);
    TagsDiffer(t.meta, t.fields, i, i);
    var tag := MakeTag(t.meta, t.fields[i].tag).value;
    var m := LastMatching(t.meta, t.fields, tag);
    TagsDiffer(t.meta, t.fields, m.value, i);
    hide EncodeType, DecodeType, Normalize;
    assert t.fields[i] in t.fields;
    ChoiceUnfold(t, i, v.value, tag, EncodeType(t.fields[i].ty, v.value).value);
  }

  /** A tagged list with one required member, as a path with a required endpoint. */
  const PATH_TYPE := TList(Meta(None, None),
                           [Field(ContextTag(1), "endpoint", false, TInt(false, None, None), Some(1), Some(1))])
  const PATH_VALUE := VObj(map["endpoint" := Some(VInt(7))])
  const WRAPPED_PATH := VObj(map["endpoint" := Some(VSeq([VInt(7)]))])

  /** A required member of a tagged list does not come back as it was: the value 7 returns as [7]. */
  lemma RequiredListMemberWrapped(rest: seq<byte>)
    ensures WellFormed(PATH_TYPE) && Conforms(PATH_TYPE, PATH_VALUE) && EncodeMessage(PATH_TYPE, PATH_VALUE).Success?
    ensures DecodeMessage(PATH_TYPE, EncodeMessage(PATH_TYPE, PATH_VALUE).value + rest) == Success(WRAPPED_PATH)
    ensures WRAPPED_PATH != PATH_VALUE
  {
    WrappedForm();
    assert WRAPPED_PATH.attrs["endpoint"] != PATH_VALUE.attrs["endpoint"];
    hide WellFormed, Conforms, Normalize, EncodeMessage, DecodeMessage;
    MessageRoundTrip(PATH_TYPE, PATH_VALUE, rest);
  }

  lemma WrappedForm()
    ensures WellFormed(PATH_TYPE) && Conforms(PATH_TYPE, PATH_VALUE) && Normalize(PATH_TYPE, PATH_VALUE) == WRAPPED_PATH
  {
    hide WellFormed, Conforms, Normalize;
    OneRequired(PATH_TYPE, PATH_TYPE.fields[0], PATH_VALUE.attrs, WRAPPED_PATH.attrs);
  }

  predicate IsPathType(t: Type, f: Field) {
    && t == TList(Meta(None, None), [f])
    && f == Field(ContextTag(1), "endpoint", false, TInt(false, None, None), Some(1), Some(1))
  }

  lemma OneRequired(t: Type, f: Field, attrs: map<string, Option<Value>>, wrapped: map<string, Option<Value>>)
    requires IsPathType(t, f)
    requires attrs == map["endpoint" := Some(VInt(7))] && wrapped == map["endpoint" := Some(VSeq([VInt(7)]))]
    ensures WellFormed(t) && Conforms(t, VObj(attrs)) && Normalize(t, VObj(attrs)) == VObj(wrapped)
  {
    OneWellFormed(t, f);
    assert f in t.fields && SourcesOf(t.fields, attrs);
    assert MemberConforms(t, f, attrs["endpoint"]) && Conforms(t, VObj(attrs));
    hide WellFormed, Conforms, MemberConforms;
    assert NormalMember(false, f, attrs["endpoint"]) == Some(VSeq([VInt(7)]));
    NormalFormIs(t, attrs, wrapped);
  }

  lemma OneWellFormed(t: Type, f: Field)
    requires IsPathType(t, f)
    ensures WellFormed(t) && t.fields == [f] && f.source == "endpoint"
  {
    assert forall g | g in t.fields :: g == f;
    assert UniqueTags(t.meta, t.fields) && WellFormed(f.ty) && !IsChoice(f.ty) && CountsAllowed(f);
  }

  // ---------------------------------------------------------------------- members

  /** The member's value encodes and decodes back to its normal form. */
  ghost predicate MemberOk(f: Field, v: Option<Value>) {
    v.Some? && Decodes(f.ty, v.value)
  }

  ghost predicate Decodes(t: Type, v: Value) {
    var e := EncodeType(t, v);
    e.Success? && Shaped(e.value) && Fits(e.value) && (e.value.Null? ==> v.VNull?)
    && IsSuccess(DecodeType(t, e.value), Normalize(t, v))
  }

  ghost predicate IsSuccess<T(!new)>(r: Result<T>, v: T) {
    r.Success? && r.value == v
  }

  lemma {:induction false} NamedIs(fs: seq<Field>, i: nat)
    requires UniqueSources(fs) && i < |fs|
    ensures Named(fs, fs[i].source) == Some(i)
  {
    assert Named(fs, fs[i].source).Some?;
  }

  lemma OrderedKeeps(t: Type)
    requires t.TStruct? && WellFormed(t)
    ensures UniqueSources(Ordered(t)) && UniqueTags(t.meta, Ordered(t))
    ensures forall f | f in t.fields :: f in Ordered(t)
  {
    SortUnique(t.fields);
    forall f | f in t.fields ensures f in Ordered(t) {
      assert f in multiset(Ordered(t));
    }
  }

  // ---------------------------------------------------------------------- structures

  /** An ordered structure value whose present members all encode. */
  ghost predicate Ready(t: Type, fs: seq<Field>, attrs: map<string, Option<Value>>) {
    && t.TStruct? && UniqueSources(fs) && UniqueTags(t.meta, fs)
    && (forall f | f in fs :: f in t.fields && f.source in attrs)
    && forall f | f in fs :: Skipped(f, attrs[f.source]) || MemberOk(f, attrs[f.source])
  }

  ghost function Entry(t: Type, f: Field, v: Option<Value>): Element
    requires t.TStruct? || t.TList?
    requires MakeTag(t.meta, f.tag).Success? && MemberOk(f, v)
  {
    Element(MakeTag(t.meta, f.tag).value, EncodeType(f.ty, v.value).value)
  }

  ghost function Entries(t: Type, fs: seq<Field>, attrs: map<string, Option<Value>>, i: nat): seq<Element>
    requires Ready(t, fs, attrs) && i <= |fs|
    decreases |fs| - i
  {
    if i == |fs| then []
    else if Skipped(fs[i], attrs[fs[i].source]) then Entries(t, fs, attrs, i + 1)
    else [Entry(t, fs[i], attrs[fs[i].source])] + Entries(t, fs, attrs, i + 1)
  }

  ghost function Present(fs: seq<Field>, attrs: map<string, Option<Value>>, i: nat): seq<Option<nat>>
    requires (forall f | f in fs :: f.source in attrs) && i <= |fs|
    decreases |fs| - i
  {
    if i == |fs| then []
    else if Skipped(fs[i], attrs[fs[i].source]) then Present(fs, attrs, i + 1)
    else [Some(i)] + Present(fs, attrs, i + 1)
  }

  predicate HasTag(meta: Meta, f: Field, tag: Option<Tag>) {
    var m := MakeTag(meta, f.tag);
    m.Success? && m.value == tag
  }

  /** The wire tag of member k does not occur in `out` for any k from i on. */
  ghost predicate TagsFresh(meta: Meta, fs: seq<Field>, i: nat, out: seq<Element>) {
    forall j, k | 0 <= j < |out| && i <= k < |fs| :: !HasTag(meta, fs[k], out[j].tag)
  }

  lemma {:induction false} StructEncodes(t: Type, fs: seq<Field>, attrs: map<string, Option<Value>>, i: nat,
                                         out: seq<Element>)
    requires Ready(t, fs, attrs) && i <= |fs| && TagsFresh(t.meta, fs, i, out)
    ensures IsSuccess(EncodeToDict(t, fs[i..], attrs, out), out + Entries(t, fs, attrs, i))
    decreases |fs| - i
  {
    if i == |fs| {
      assert out + [] == out;
    } else {
      var f := fs[i];
      assert f in fs && fs[i..][0] == f && fs[i..][1..] == fs[i + 1..];
      if Skipped(f, attrs[f.source]) {
        StructEncodes(t, fs, attrs, i + 1, out);
      } else {
        var e := Entry(t, f, attrs[f.source]);
        TlvTheorems.SetOfFreshKey(out, e);
        FreshAfter(t, fs, i, out, e);
        StructEncodes(t, fs, attrs, i + 1, out + [e]);
        assert out + [e] + Entries(t, fs, attrs, i + 1) == out + Entries(t, fs, attrs, i);
      }
    }
  }

  lemma FreshAfter(t: Type, fs: seq<Field>, i: nat, out: seq<Element>, e: Element)
    requires t.TStruct? && UniqueSources(fs) && UniqueTags(t.meta, fs) && i < |fs| && TagsFresh(t.meta, fs, i, out)
    requires HasTag(t.meta, fs[i], e.tag)
    ensures TagsFresh(t.meta, fs, i + 1, out + [e])
  {
    forall k | i < k < |fs| ensures !HasTag(t.meta, fs[k], e.tag) {
      TagsDiffer(t.meta, fs, i, k);
    }
  }

  /** Different members have different wire tags, and neither recognises the other's. */
  lemma TagsDiffer(meta: Meta, fs: seq<Field>, i: nat, k: nat)
    requires UniqueSources(fs) && UniqueTags(meta, fs) && i < |fs| && k < |fs|
    ensures MakeTag(meta, fs[k].tag).Success?
    ensures TagMatches(meta, fs[i].tag, MakeTag(meta, fs[k].tag).value) <==> i == k
    ensures MakeTag(meta, fs[i].tag) == MakeTag(meta, fs[k].tag) ==> i == k
  {
    assert fs[i] in fs && fs[k] in fs;
  }

  lemma {:induction false} EntriesMatch(t: Type, fs: seq<Field>, attrs: map<string, Option<Value>>, i: nat)
    requires Ready(t, fs, attrs) && i <= |fs|
    ensures Members(t, fs, Entries(t, fs, attrs, i)) == Present(fs, attrs, i)
    decreases |fs| - i
  {
    if i < |fs| {
      EntriesMatch(t, fs, attrs, i + 1);
      var f := fs[i];
      if !Skipped(f, attrs[f.source]) {
        var es := Entries(t, fs, attrs, i);
        assert es[1..] == Entries(t, fs, attrs, i + 1);
        MembersCons(t, fs, es);
        TagsDiffer(t.meta, fs, i, i);
        var m := Matching(t.meta, fs, es[0].tag);
        TagsDiffer(t.meta, fs, m.value, i);
      }
    }
  }

  lemma {:induction false} PresentAscends(fs: seq<Field>, attrs: map<string, Option<Value>>, i: nat)
    requires (forall f | f in fs :: f.source in attrs) && i <= |fs|
    ensures Ascending(Present(fs, attrs, i), i, |fs|)
    ensures forall j | i <= j < |fs| :: Some(j) in Present(fs, attrs, i) <==> !Skipped(fs[j], attrs[fs[j].source])
    decreases |fs| - i
  {
    if i < |fs| {
      PresentAscends(fs, attrs, i + 1);
    }
  }

  /** What the value loop leaves in `r`, started from `out` at member i. */
  ghost predicate Filled(fs: seq<Field>, attrs: map<string, Option<Value>>, i: nat,
                         out: map<string, Option<Value>>, r: map<string, Option<Value>>)
    requires forall f | f in fs :: f.source in attrs
  {
    && (forall j | i <= j < |fs| && !Skipped(fs[j], attrs[fs[j].source]) ::
          fs[j].source in r && r[fs[j].source] == NormalMember(true, fs[j], attrs[fs[j].source]))
    && (forall s | s in r ::
        s in out || exists j :: i <= j < |fs| && !Skipped(fs[j], attrs[fs[j].source]) && fs[j].source == s)
    && (forall s | s in out :: s in r)
    && (forall s | s in out
        && (forall j | i <= j < |fs| && !Skipped(fs[j], attrs[fs[j].source]) :: fs[j].source != s) ::
          r[s] == out[s])
  }

  lemma ValuesStep(t: Type, fs: seq<Field>, i: nat, have: seq<Option<nat>>, es: seq<Element>,
                   v: Value, out: map<string, Option<Value>>)
    requires t.TStruct? && (forall f | f in fs :: f in t.fields) && i < |fs|
    requires have != [] && es != [] && have[0] == Some(i) && IsSuccess(DecodeType(fs[i].ty, es[0].data), v)
    ensures DecodeValues(t, fs, have, es, out) == DecodeValues(t, fs, have[1..], es[1..], out[fs[i].source := Some(v)])
  {
    hide DecodeType;
  }

  lemma {:induction false} ValuesDecode(t: Type, fs: seq<Field>, attrs: map<string, Option<Value>>, i: nat,
                                        out: map<string, Option<Value>>)
    requires Ready(t, fs, attrs) && i <= |fs|
    ensures var r := DecodeValues(t, fs, Present(fs, attrs, i), Entries(t, fs, attrs, i), out);
            r.Success? && Filled(fs, attrs, i, out, r.value)
    decreases |fs| - i
  {
    if i < |fs| {
      hide DecodeType, EncodeType, Normalize, Filled, DecodeValues;
      var f := fs[i];
      if Skipped(f, attrs[f.source]) {
        ValuesDecode(t, fs, attrs, i + 1, out);
        FilledSkip(fs, attrs, i, out,
                   DecodeValues(t, fs, Present(fs, attrs, i + 1), Entries(t, fs, attrs, i + 1), out).value);
      } else {
        assert f in fs;
        var have, es := Present(fs, attrs, i), Entries(t, fs, attrs, i);
        assert have[1..] == Present(fs, attrs, i + 1) && es[1..] == Entries(t, fs, attrs, i + 1);
        var v := Normalize(f.ty, attrs[f.source].value);
        ValuesStep(t, fs, i, have, es, v, out);
        ValuesDecode(t, fs, attrs, i + 1, out[f.source := Some(v)]);
        FilledStep(fs, attrs, i, out, out[f.source := Some(v)],
                   DecodeValues(t, fs, have[1..], es[1..], out[f.source := Some(v)]).value);
      }
    }
  }

  lemma FilledSkip(fs: seq<Field>, attrs: map<string, Option<Value>>, i: nat, out: map<string, Option<Value>>,
                   r: map<string, Option<Value>>)
    requires (forall f | f in fs :: f.source in attrs) && i < |fs| && Skipped(fs[i], attrs[fs[i].source])
    requires Filled(fs, attrs, i + 1, out, r)
    ensures Filled(fs, attrs, i, out, r)
  {
  }

  lemma FilledStep(fs: seq<Field>, attrs: map<string, Option<Value>>, i: nat,
                   out: map<string, Option<Value>>, out': map<string, Option<Value>>, r: map<string, Option<Value>>)
    requires (forall f | f in fs :: f.source in attrs) && i < |fs| && UniqueSources(fs)
    requires !Skipped(fs[i], attrs[fs[i].source])
    requires out' == out[fs[i].source := NormalMember(true, fs[i], attrs[fs[i].source])]
    requires Filled(fs, attrs, i + 1, out', r)
    ensures Filled(fs, attrs, i, out, r)
  {
    forall s | s in r && s !in out
      ensures exists j :: i <= j < |fs| && !Skipped(fs[j], attrs[fs[j].source]) && fs[j].source == s
    {
      if s == fs[i].source {
      } else {
        assert s !in out';
      }
    }
    assert fs[i].source in out';
  }

  /** The wire tag of some member from i on. */
  ghost predicate OfMember(meta: Meta, fs: seq<Field>, i: nat, tag: Option<Tag>) {
    exists j :: i <= j < |fs| && HasTag(meta, fs[j], tag)
  }

  ghost predicate EntryFits(meta: Meta, fs: seq<Field>, i: nat, e: Element) {
    TagFits(e.tag) && Shaped(e.data) && Fits(e.data) && OfMember(meta, fs, i, e.tag)
  }

  /** Each entry carries the tag of a member from i on, and everything in it fits. */
  ghost predicate WellTagged(t: Type, fs: seq<Field>, i: nat, es: seq<Element>)
    requires t.TStruct? || t.TList?
  {
    forall k | 0 <= k < |es| :: EntryFits(t.meta, fs, i, es[k])
  }

  lemma ConsTagged(t: Type, fs: seq<Field>, i: nat, e: Element, es: seq<Element>)
    requires (t.TStruct? || t.TList?) && UniqueSources(fs) && UniqueTags(t.meta, fs) && i < |fs|
    requires WellTagged(t, fs, i + 1, es) && DistinctTags(es)
    requires HasTag(t.meta, fs[i], e.tag) && Shaped(e.data) && Fits(e.data)
    ensures WellTagged(t, fs, i, [e] + es) && DistinctTags([e] + es)
  {
    TagsDiffer(t.meta, fs, i, i);
    assert fs[i] in fs && EntryFits(t.meta, fs, i, e);
    TaggedEarlier(t, fs, i, es);
    forall k | 0 <= k < |es| ensures es[k].tag != e.tag {
      assert EntryFits(t.meta, fs, i + 1, es[k]);
      var j :| i + 1 <= j < |fs| && HasTag(t.meta, fs[j], es[k].tag);
      TagsDiffer(t.meta, fs, i, j);
    }
  }

  lemma TaggedEarlier(t: Type, fs: seq<Field>, i: nat, es: seq<Element>)
    requires (t.TStruct? || t.TList?) && WellTagged(t, fs, i + 1, es)
    ensures WellTagged(t, fs, i, es)
  {
    forall k | 0 <= k < |es| ensures EntryFits(t.meta, fs, i, es[k]) {
      assert EntryFits(t.meta, fs, i + 1, es[k]);
      var j :| i + 1 <= j < |fs| && HasTag(t.meta, fs[j], es[k].tag);
      assert i <= j;
    }
  }

  lemma {:induction false} EntriesWellTagged(t: Type, fs: seq<Field>, attrs: map<string, Option<Value>>, i: nat)
    requires Ready(t, fs, attrs) && i <= |fs|
    ensures WellTagged(t, fs, i, Entries(t, fs, attrs, i)) && DistinctTags(Entries(t, fs, attrs, i))
    decreases |fs| - i
  {
    if i < |fs| {
      EntriesWellTagged(t, fs, attrs, i + 1);
      hide WellTagged, EncodeType, DecodeType, Normalize, DistinctTags;
      var f := fs[i];
      assert f in fs;
      if Skipped(f, attrs[f.source]) {
        TaggedEarlier(t, fs, i, Entries(t, fs, attrs, i + 1));
      } else {
        ConsTagged(t, fs, i, Entry(t, f, attrs[f.source]), Entries(t, fs, attrs, i + 1));
      }
    }
  }

  lemma NormalAttrIs(t: Type, i: nat, v: Option<Value>)
    requires (t.TStruct? || t.TList?) && UniqueSources(t.fields) && i < |t.fields|
    ensures NormalAttr(t, t.fields, t.fields[i].source, v) == NormalMember(t.TStruct?, t.fields[i], v)
  {
    NamedIs(t.fields, i);
    hide NormalMember;
  }

  /** Attributes that agree with the normal form member by member are the normal form. */
  lemma NormalFormIs(t: Type, attrs: map<string, Option<Value>>, r: map<string, Option<Value>>)
    requires (t.TStruct? || t.TList?) && SourcesOf(t.fields, attrs) && UniqueSources(t.fields)
    requires forall s :: s in r <==> s in attrs
    requires forall i | 0 <= i < |t.fields| ::
               r[t.fields[i].source] == NormalMember(t.TStruct?, t.fields[i], attrs[t.fields[i].source])
    ensures VObj(r) == Normalize(t, VObj(attrs))
  {
    var n := map s | s in attrs :: NormalAttr(t, t.fields, s, attrs[s]);
    assert Normalize(t, VObj(attrs)) == VObj(n);
    hide Normalize, NormalMember, NormalAttr;
    forall s | s in attrs ensures r[s] == n[s] {
      var f :| f in t.fields && f.source == s;
      var i :| 0 <= i < |t.fields| && t.fields[i] == f;
      NormalAttrIs(t, i, attrs[s]);
    }
    assert r == n;
  }

  /** A structure whose members all encode decodes to its normal form. */
  lemma StructRoundTrip(t: Type, attrs: map<string, Option<Value>>)
    requires t.TStruct? && WellFormed(t) && SourcesOf(t.fields, attrs) && Ready(t, Ordered(t), attrs)
    ensures Decodes(t, VObj(attrs))
  {
    var fs := Ordered(t);
    OrderedKeeps(t);
    StructEncoded(t, attrs);
    var es := Entries(t, fs, attrs, 0);
    EntriesMatch(t, fs, attrs, 0);
    PresentAscends(fs, attrs, 0);
    var out := AbsentAttrs(Missing(fs, Present(fs, attrs, 0), 0));
    ValuesDecode(t, fs, attrs, 0, out);
    StructCloses(t, fs, attrs, es, out, DecodeValues(t, fs, Present(fs, attrs, 0), es, out).value);
    hide Ready, EncodeType, DecodeType, Normalize, Ordered, Entries;
    DecodesStruct(t, VObj(attrs), es);
  }

  lemma StructCloses(t: Type, fs: seq<Field>, attrs: map<string, Option<Value>>, es: seq<Element>,
                     out: map<string, Option<Value>>, r: map<string, Option<Value>>)
    requires t.TStruct? && t.order != AnyOrder && SourcesOf(t.fields, attrs) && UniqueSources(t.fields)
    requires fs == Ordered(t) && UniqueSources(fs) && Present(fs, attrs, 0) == Members(t, fs, es)
    requires out == AbsentAttrs(Missing(fs, Present(fs, attrs, 0), 0)) && Filled(fs, attrs, 0, out, r)
    requires IsSuccess(DecodeValues(t, fs, Present(fs, attrs, 0), es, out), r)
    ensures IsSuccess(DecodeType(t, Container(Struct, es)), Normalize(t, VObj(attrs)))
  {
    hide Normalize, DecodeType, DecodeValues, Filled, Align, Ordered, Present, Missing, Members;
    var have := Present(fs, attrs, 0);
    PresentAscends(fs, attrs, 0);
    AcceptsPresent(t, attrs, es, have);
    NormalFormFilled(t, fs, attrs, out, r);
    StructDecodes(t, es, have, r);
  }

  lemma DecodesStruct(t: Type, v: Value, es: seq<Element>)
    requires IsSuccess(EncodeType(t, v), Container(Struct, es)) && Shaped(Container(Struct, es))
             && Fits(Container(Struct, es))
    requires IsSuccess(DecodeType(t, Container(Struct, es)), Normalize(t, v))
    ensures Decodes(t, v)
  {
    hide EncodeType, DecodeType, Normalize;
  }

  lemma StructEncoded(t: Type, attrs: map<string, Option<Value>>)
    requires t.TStruct? && WellFormed(t) && SourcesOf(t.fields, attrs) && Ready(t, Ordered(t), attrs)
    ensures var d := Container(Struct, Entries(t, Ordered(t), attrs, 0));
            IsSuccess(EncodeType(t, VObj(attrs)), d) && Shaped(d) && Fits(d)
  {
    hide WellFormed, SourcesOf, Ready, Ordered, Entries, EncodeType, EncodeToDict, Shaped, Fits, WellTagged;
    hide DistinctTags;
    var fs := Ordered(t);
    var es := Entries(t, fs, attrs, 0);
    StructEncodes(t, fs, attrs, 0, []);
    EntriesWellTagged(t, fs, attrs, 0);
    assert [] + es == es && fs[0..] == fs;
    StructData(t, attrs, es);
  }

  lemma StructData(t: Type, attrs: map<string, Option<Value>>, es: seq<Element>)
    requires t.TStruct? && IsSuccess(EncodeToDict(t, Ordered(t), attrs, []), es)
    requires WellTagged(t, Ordered(t), 0, es) && DistinctTags(es)
    ensures IsSuccess(EncodeType(t, VObj(attrs)), Container(Struct, es))
    ensures Shaped(Container(Struct, es)) && Fits(Container(Struct, es))
  {
    hide EncodeToDict, Ordered;
  }

  lemma AcceptsPresent(t: Type, attrs: map<string, Option<Value>>, es: seq<Element>, have: seq<Option<nat>>)
    requires t.TStruct? && have == Members(t, Ordered(t), es) && Ascending(have, 0, |Ordered(t)|)
    requires forall f | f in Ordered(t) :: f.source in attrs
    requires var fs := Ordered(t);
             forall j | 0 <= j < |fs| :: Some(j) in have <==> !Skipped(fs[j], attrs[fs[j].source])
    ensures IsSuccess(MatchEntries(t, Ordered(t), es, []), have)
    ensures IsSuccess(Align(Ordered(t), have, 0), Missing(Ordered(t), have, 0))
  {
    var fs := Ordered(t);
    StructureAcceptsIff(t, es);
    MatchEntriesValue(t, fs, es, []);
    assert [] + have == have;
    AlignIff(fs, have, 0);
  }

  lemma StructDecodes(t: Type, es: seq<Element>, have: seq<Option<nat>>, r: map<string, Option<Value>>)
    requires t.TStruct? && t.order != AnyOrder
    requires IsSuccess(MatchEntries(t, Ordered(t), es, []), have) && Align(Ordered(t), have, 0).Success?
    requires IsSuccess(DecodeValues(t, Ordered(t), have, es, AbsentAttrs(Align(Ordered(t), have, 0).value)), r)
    ensures IsSuccess(DecodeType(t, Container(Struct, es)), VObj(r))
  {
  }

  /** The filled-in attributes are the normal form. */
  lemma NormalFormFilled(t: Type, fs: seq<Field>, attrs: map<string, Option<Value>>, out: map<string, Option<Value>>,
                         r: map<string, Option<Value>>)
    requires t.TStruct? && SourcesOf(t.fields, attrs) && UniqueSources(t.fields) && UniqueSources(fs)
    requires multiset(fs) == multiset(t.fields) && forall f | f in fs :: f in t.fields
    requires out == AbsentAttrs(Missing(fs, Present(fs, attrs, 0), 0)) && Filled(fs, attrs, 0, out, r)
    ensures VObj(r) == Normalize(t, VObj(attrs))
  {
    PresentAscends(fs, attrs, 0);
    MissingIs(fs, Present(fs, attrs, 0), 0);
    hide Normalize, Missing, Present;
    forall i | 0 <= i < |t.fields|
      ensures t.fields[i].source in r
      ensures r[t.fields[i].source] == NormalMember(true, t.fields[i], attrs[t.fields[i].source])
    {
      var f := t.fields[i];
      assert f in multiset(t.fields) && f in fs;
      var j :| 0 <= j < |fs| && fs[j] == f;
      if Skipped(f, attrs[f.source]) {
        assert f.source in out;
        assert forall k | 0 <= k < |fs| && !Skipped(fs[k], attrs[fs[k].source]) :: fs[k].source != f.source;
      }
    }
    forall s | s in r ensures s in attrs {
      assert exists j :: 0 <= j < |fs| && fs[j].source == s;
      var j :| 0 <= j < |fs| && fs[j].source == s;
      assert fs[j] in t.fields;
    }
    NormalFormIs(t, attrs, r);
  }

  // ---------------------------------------------------------------------- tagged lists

  /** A tagged-list value whose present members all encode. */
  ghost predicate ListReady(t: Type, attrs: map<string, Option<Value>>) {
    && t.TList? && UniqueSources(t.fields) && UniqueTags(t.meta, t.fields)
    && (forall f | f in t.fields :: f.source in attrs && CountsAllowed(f))
    && forall f | f in t.fields :: (f.optional && attrs[f.source] == None) || MemberOk(f, attrs[f.source])
  }

  ghost function Listed(t: Type, attrs: map<string, Option<Value>>, i: nat): seq<Element>
    requires ListReady(t, attrs) && i <= |t.fields|
    decreases |t.fields| - i
  {
    if i == |t.fields| then []
    else
      var f := t.fields[i];
      if f.optional && attrs[f.source] == None then Listed(t, attrs, i + 1)
      else [Entry(t, f, attrs[f.source])] + Listed(t, attrs, i + 1)
  }

  lemma {:induction false} ListEncodes(t: Type, attrs: map<string, Option<Value>>, i: nat)
    requires ListReady(t, attrs) && i <= |t.fields|
    ensures IsSuccess(EncodeToList(t, t.fields[i..], attrs), Listed(t, attrs, i))
    ensures WellTagged(t, t.fields, i, Listed(t, attrs, i)) && DistinctTags(Listed(t, attrs, i))
    decreases |t.fields| - i
  {
    if i < |t.fields| {
      var f := t.fields[i];
      assert f in t.fields && t.fields[i..][0] == f && t.fields[i..][1..] == t.fields[i + 1..];
      TagsDiffer(t.meta, t.fields, i, i);
      ListEncodes(t, attrs, i + 1);
      if !(f.optional && attrs[f.source] == None) {
        ConsTagged(t, t.fields, i, Entry(t, f, attrs[f.source]), Listed(t, attrs, i + 1));
      }
    }
  }

  /** The elements of members from i on are not taken for member h before them. */
  lemma NoRun(t: Type, h: nat, i: nat, es: seq<Element>)
    requires t.TList? && UniqueSources(t.fields) && UniqueTags(t.meta, t.fields) && h < i <= |t.fields|
    requires WellTagged(t, t.fields, i, es)
    ensures Run(t.meta, t.fields[h].tag, es) == 0
  {
    if es != [] {
      assert EntryFits(t.meta, t.fields, i, es[0]);
      var j :| i <= j < |t.fields| && HasTag(t.meta, t.fields[j], es[0].tag);
      TagsDiffer(t.meta, t.fields, h, j);
    }
  }

  ghost predicate ListFilled(t: Type, attrs: map<string, Option<Value>>, i: nat,
                             out: map<string, Option<Value>>, r: map<string, Option<Value>>)
    requires t.TList? && forall f | f in t.fields :: f.source in attrs
  {
    && (forall j | i <= j < |t.fields| ::
          t.fields[j].source in r
            && r[t.fields[j].source] == NormalMember(false, t.fields[j], attrs[t.fields[j].source]))
    && (forall s | s in r :: s in out || exists j :: i <= j < |t.fields| && t.fields[j].source == s)
    && (forall s | s in out && (forall j | i <= j < |t.fields| :: t.fields[j].source != s) :: s in r && r[s] == out[s])
  }

  lemma ListFilledStep(t: Type, attrs: map<string, Option<Value>>, i: nat, out: map<string, Option<Value>>,
                       r: map<string, Option<Value>>)
    requires t.TList? && (forall f | f in t.fields :: f.source in attrs) && UniqueSources(t.fields) && i < |t.fields|
    requires var f := t.fields[i];
             ListFilled(t, attrs, i + 1, out[f.source := NormalMember(false, f, attrs[f.source])], r)
    ensures ListFilled(t, attrs, i, out, r)
  {
    var f := t.fields[i];
    var out' := out[f.source := NormalMember(false, f, attrs[f.source])];
    assert f.source in out' && forall j | i < j < |t.fields| :: t.fields[j].source != f.source;
    forall s | s in r && s !in out ensures exists j :: i <= j < |t.fields| && t.fields[j].source == s {
      if s != f.source {
        assert s !in out';
      }
    }
  }

  /** One member's turn of the list decoder, whose run of elements is `run`. */
  lemma ListStep(t: Type, fs: seq<Field>, items: seq<Element>, vs: seq<Value>, out: map<string, Option<Value>>)
    requires t.TList? && fs != [] && forall f | f in fs :: f in t.fields
    requires var k := Run(t.meta, fs[0].tag, items);
             IsSuccess(DecodeAll(false, fs[0].ty, items[..k]), vs) && InBounds(k, fs[0].minCount, fs[0].maxCount)
    ensures var v := if !fs[0].optional then Some(VSeq(vs)) else if vs == [] then None else Some(vs[0]);
            DecodeFromList(t, fs, items, out)
            == DecodeFromList(t, fs[1..], items[Run(t.meta, fs[0].tag, items)..], out[fs[0].source := v])
  {
    hide DecodeAll;
  }

  lemma {:induction false} ListDecodes(t: Type, attrs: map<string, Option<Value>>, i: nat,
                                       out: map<string, Option<Value>>)
    requires ListReady(t, attrs) && i <= |t.fields|
    ensures var r := DecodeFromList(t, t.fields[i..], Listed(t, attrs, i), out);
            r.Success? && ListFilled(t, attrs, i, out, r.value)
    decreases |t.fields| - i
  {
    if i < |t.fields| {
      var f := t.fields[i];
      var rest := Listed(t, attrs, i + 1);
      assert f in t.fields;
      ListTurn(t, attrs, i, out);
      hide ListFilled, DecodeFromList, Normalize, Listed;
      var out' := out[f.source := NormalMember(false, f, attrs[f.source])];
      ListDecodes(t, attrs, i + 1, out');
      ListFilledStep(t, attrs, i, out, DecodeFromList(t, t.fields[i + 1..], rest, out').value);
    }
  }

  lemma ListTurn(t: Type, attrs: map<string, Option<Value>>, i: nat, out: map<string, Option<Value>>)
    requires ListReady(t, attrs) && i < |t.fields|
    ensures var f := t.fields[i];
            f in t.fields
            && DecodeFromList(t, t.fields[i..], Listed(t, attrs, i), out)
               == DecodeFromList(t, t.fields[i + 1..], Listed(t, attrs, i + 1),
                                 out[f.source := NormalMember(false, f, attrs[f.source])])
  {
    var f := t.fields[i];
    var items, rest := Listed(t, attrs, i), Listed(t, attrs, i + 1);
    assert f in t.fields && t.fields[i..][0] == f && t.fields[i..][1..] == t.fields[i + 1..];
    ListEncodes(t, attrs, i + 1);
    NoRun(t, i, i + 1, rest);
    TagsDiffer(t.meta, t.fields, i, i);
    hide DecodeType, EncodeType, Normalize, DecodeFromList, EncodeToList, WellTagged;
    var k := Run(t.meta, f.tag, items);
    if f.optional && attrs[f.source] == None {
      assert k == 0 && items[..0] == [] && items[0..] == rest;
      ListStep(t, t.fields[i..], items, [], out);
    } else {
      assert items[1..] == rest && k == 1 && items[..1] == [items[0]];
      OneDecodes(f.ty, items[0], Normalize(f.ty, attrs[f.source].value));
      ListStep(t, t.fields[i..], items, [Normalize(f.ty, attrs[f.source].value)], out);
    }
  }

  lemma OneDecodes(u: Type, e: Element, v: Value)
    requires IsSuccess(DecodeType(u, e.data), v)
    ensures IsSuccess(DecodeAll(false, u, [e]), [v])
  {
    hide DecodeType;
    assert [e][1..] == [] && [v] + [] == [v];
  }

  lemma ListRoundTrip(t: Type, attrs: map<string, Option<Value>>)
    requires ListReady(t, attrs) && SourcesOf(t.fields, attrs)
    ensures Decodes(t, VObj(attrs))
  {
    ListEncodes(t, attrs, 0);
    ListDecodes(t, attrs, 0, map[]);
    assert t.fields[0..] == t.fields;
    var es := Listed(t, attrs, 0);
    var r := DecodeFromList(t, t.fields, es, map[]).value;
    ListNormal(t, attrs, r);
    ListUnfold(t, attrs, es, r);
  }

  lemma ListUnfold(t: Type, attrs: map<string, Option<Value>>, es: seq<Element>, r: map<string, Option<Value>>)
    requires t.TList? && IsSuccess(EncodeToList(t, t.fields, attrs), es)
             && IsSuccess(DecodeFromList(t, t.fields, es, map[]), r)
    requires WellTagged(t, t.fields, 0, es) && DistinctTags(es) && VObj(r) == Normalize(t, VObj(attrs))
    ensures Decodes(t, VObj(attrs))
  {
    hide EncodeToList, DecodeFromList, Normalize;
    assert IsSuccess(EncodeType(t, VObj(attrs)), Container(List, es));
    assert IsSuccess(DecodeType(t, Container(List, es)), VObj(r));
  }

  lemma ListNormal(t: Type, attrs: map<string, Option<Value>>, r: map<string, Option<Value>>)
    requires t.TList? && SourcesOf(t.fields, attrs) && UniqueSources(t.fields) && ListFilled(t, attrs, 0, map[], r)
    ensures VObj(r) == Normalize(t, VObj(attrs))
  {
    hide Normalize, NormalMember;
    forall s | s in r ensures s in attrs {
      var j :| 0 <= j < |t.fields| && t.fields[j].source == s;
      assert t.fields[j] in t.fields;
    }
    NormalFormIs(t, attrs, r);
  }

  // ---------------------------------------------------------------------- every schema

  ghost predicate ChoiceDecodes(t: Type, v: Value) {
    var e := EncodeChoice(t, v);
    e.Success? && TagFits(e.value.tag) && Shaped(e.value.data) && Fits(e.value.data)
    && IsSuccess(DecodeChoice(t, e.value), Normalize(t, v))
  }

  lemma StructReady(t: Type, attrs: map<string, Option<Value>>)
    requires t.TStruct? && UniqueSources(Ordered(t)) && UniqueTags(t.meta, Ordered(t)) && SourcesOf(t.fields, attrs)
    requires forall i | 0 <= i < |t.fields| ::
               Skipped(t.fields[i], attrs[t.fields[i].source]) || MemberOk(t.fields[i], attrs[t.fields[i].source])
    ensures Ready(t, Ordered(t), attrs)
  {
    hide MemberOk, Skipped;
  }

  lemma {:induction false} MemberRoundTrip(t: Type, f: Field, v: Option<Value>)
    requires f < t && f.ty < t && WellFormed(f.ty) && !IsChoice(f.ty) && MemberConforms(t, f, v)
    ensures (f.optional && v == None) || MemberOk(f, v)
    decreases t, 2
  {
    if v.Some? {
      TypeRoundTrip(f.ty, v.value);
    }
  }

  lemma {:induction false} SeqRoundTrip(t: Type, vs: seq<Value>)
    requires t.TSeq? && WellFormed(t) && Conforms(t, VSeq(vs))
    ensures Decodes(t, VSeq(vs))
    decreases t, 2
  {
    forall i | 0 <= i < |vs| ensures if t.isList then ChoiceDecodes(t.item, vs[i]) else Decodes(t.item, vs[i]) {
      if t.isList { ChoiceRoundTrip(t.item, vs[i]); } else { TypeRoundTrip(t.item, vs[i]); }
    }
    AllEncode(t.isList, t.item, vs);
    SeqUnfold(t, vs, EncodeAll(t.isList, t.item, vs).value, Normals(t.item, vs));
  }

  function Normals(u: Type, vs: seq<Value>): seq<Value> {
    seq(|vs|, i requires 0 <= i < |vs| => Normalize(u, vs[i]))
  }

  lemma SeqUnfold(t: Type, vs: seq<Value>, items: seq<Element>, ns: seq<Value>)
    requires t.TSeq? && IsSuccess(EncodeAll(t.isList, t.item, vs), items)
             && IsSuccess(DecodeAll(t.isList, t.item, items), ns)
    requires forall i | 0 <= i < |items| :: ItemFits(t.isList, items[i])
    requires ns == Normals(t.item, vs)
    ensures Decodes(t, VSeq(vs))
  {
    hide EncodeAll, DecodeAll;
    var kind := if t.isList then List else Array;
    assert IsSuccess(EncodeType(t, VSeq(vs)), Container(kind, items));
    assert IsSuccess(DecodeType(t, Container(kind, items)), VSeq(ns));
    assert Normalize(t, VSeq(vs)) == VSeq(ns);
  }

  ghost predicate ItemFits(isList: bool, e: Element) {
    TagFits(e.tag) && Shaped(e.data) && Fits(e.data) && (isList || e.tag == None)
  }

  /** The elements encode, fit, and decode to the normal forms of the values. */
  ghost predicate AllDecode(isList: bool, u: Type, vs: seq<Value>) {
    var e := EncodeAll(isList, u, vs);
    && e.Success?
    && IsSuccess(DecodeAll(isList, u, e.value), Normals(u, vs))
    && (forall i | 0 <= i < |e.value| :: ItemFits(isList, e.value[i]))
  }

  lemma {:induction false} AllEncode(isList: bool, u: Type, vs: seq<Value>)
    requires forall i | 0 <= i < |vs| :: if isList then ChoiceDecodes(u, vs[i]) else Decodes(u, vs[i])
    ensures AllDecode(isList, u, vs)
  {
    if vs == [] {
      assert EncodeAll(isList, u, vs) == Success([]) && Normals(u, vs) == [];
    } else {
      hide AllDecode, ChoiceDecodes, Decodes;
      AllEncode(isList, u, vs[1..]);
      AllStep(isList, u, vs);
    }
  }

  lemma NormalsCons(u: Type, vs: seq<Value>)
    requires vs != []
    ensures Normals(u, vs) == [Normalize(u, vs[0])] + Normals(u, vs[1..])
  {
    hide Normalize;
  }

  lemma ItemFitsHead(isList: bool, u: Type, v: Value, e: Element)
    requires if isList then ChoiceDecodes(u, v) && e == EncodeChoice(u, v).value
             else Decodes(u, v) && e == Element(None, EncodeType(u, v).value)
    ensures ItemFits(isList, e)
  {
    hide EncodeType, DecodeType, EncodeChoice, DecodeChoice, Normalize;
  }

  lemma AllStep(isList: bool, u: Type, vs: seq<Value>)
    requires vs != [] && AllDecode(isList, u, vs[1..])
    requires if isList then ChoiceDecodes(u, vs[0]) else Decodes(u, vs[0])
    ensures AllDecode(isList, u, vs)
  {
    var more := EncodeAll(isList, u, vs[1..]).value;
    var e := if isList then EncodeChoice(u, vs[0]).value else Element(None, EncodeType(u, vs[0]).value);
    hide EncodeType, DecodeType, EncodeChoice, DecodeChoice, Normalize, ItemFits;
    assert EncodeAll(isList, u, vs).value == [e] + more;
    assert ([e] + more)[1..] == more;
    NormalsCons(u, vs);
    ItemFitsHead(isList, u, vs[0], e);
    hide Normals;
  }

  lemma ChoiceUnfold(t: Type, i: nat, inner: Value, tag: Option<Tag>, d: Data)
    requires t.TChoice? && i < |t.fields| && Named(t.fields, t.fields[i].source) == Some(i)
    requires MakeTag(t.meta, t.fields[i].tag) == Success(tag) && LastMatching(t.meta, t.fields, tag) == Some(i)
    requires IsSuccess(EncodeType(t.fields[i].ty, inner), d)
             && IsSuccess(DecodeType(t.fields[i].ty, d), Normalize(t.fields[i].ty, inner))
    requires TagFits(tag) && Shaped(d) && Fits(d)
    ensures ChoiceDecodes(t, VChoice(t.fields[i].source, inner))
  {
    hide EncodeType, DecodeType;
  }

  lemma EncodesContainer(t: Type, v: Value)
    requires (t.TStruct? || t.TList?) && Conforms(t, v) && EncodeType(t, v).Success?
    ensures EncodeType(t, v).value.Container?
  {
  }

  // ---------------------------------------------------------------------- when the value itself comes back

  /** A conforming value is never the one-element list of its own normal form. */
  lemma {:induction false} NotWrapped(t: Type, v: Value)
    requires Conforms(t, v)
    ensures v != VSeq([Normalize(t, v)])
    decreases t
  {
    match (t, v)
    case (TNullable(u), _) => if !v.VNull? { NotWrapped(u, v); }
    case (TSeq(_, u), VSeq(vs)) => if |vs| == 1 { NotWrapped(u, vs[0]); }
    case _ =>
  }

  lemma {:induction false} MemberIffPlain(t: Type, f: Field, a: Option<Value>)
    requires (t.TStruct? || t.TList?) && f in t.fields && WellFormed(f.ty) && MemberConforms(t, f, a)
    ensures NormalMember(t.TStruct?, f, a) == a <==> PlainMember(t.TStruct?, f, a)
    decreases t, 0
  {
    if a.Some? {
      NormalFormIffPlain(f.ty, a.value);
      NotWrapped(f.ty, a.value);
    }
    hide Normalize, Plain, Conforms, WellFormed;
  }

  lemma {:induction false} ObjectIffPlain(t: Type, fs: seq<Field>, attrs: map<string, Option<Value>>)
    requires (t.TStruct? || t.TList?) && fs == t.fields && WellFormed(t) && Conforms(t, VObj(attrs))
    ensures Normalize(t, VObj(attrs)) == VObj(attrs) <==> Plain(t, VObj(attrs))
    decreases t, 1
  {
    hide Normalize, NormalAttr, NormalMember, PlainMember, Named;
    forall i | 0 <= i < |fs|
      ensures NormalAttr(t, fs, fs[i].source, attrs[fs[i].source]) == attrs[fs[i].source]
              <==> PlainMember(t.TStruct?, fs[i], attrs[fs[i].source])
    {
      NormalAttrIs(t, i, attrs[fs[i].source]);
      MemberIffPlain(t, fs[i], attrs[fs[i].source]);
    }
    MapIffPointwise(t, fs, attrs);
  }

  lemma NormalizeIsMap(t: Type, fs: seq<Field>, attrs: map<string, Option<Value>>)
    requires (t.TStruct? || t.TList?) && fs == t.fields && SourcesOf(fs, attrs)
    ensures Normalize(t, VObj(attrs)) == VObj(map s | s in attrs :: NormalAttr(t, fs, s, attrs[s]))
  {
    hide NormalAttr;
  }

  lemma MapIffPointwise(t: Type, fs: seq<Field>, attrs: map<string, Option<Value>>)
    requires (t.TStruct? || t.TList?) && fs == t.fields && SourcesOf(fs, attrs)
    ensures Normalize(t, VObj(attrs)) == VObj(attrs) <==>
            forall i | 0 <= i < |fs| :: NormalAttr(t, fs, fs[i].source, attrs[fs[i].source]) == attrs[fs[i].source]
  {
    NormalizeIsMap(t, fs, attrs);
    hide Normalize;
    MapSame(fs, attrs, map s | s in attrs :: NormalAttr(t, fs, s, attrs[s]));
    hide NormalAttr;
    assert forall i | 0 <= i < |fs| :: fs[i] in fs && fs[i].source in attrs;
  }

  lemma MapSame(fs: seq<Field>, attrs: map<string, Option<Value>>, n: map<string, Option<Value>>)
    requires SourcesOf(fs, attrs) && n.Keys == attrs.Keys
    ensures forall i | 0 <= i < |fs| :: fs[i] in fs && fs[i].source in attrs
    ensures n == attrs <==> forall i | 0 <= i < |fs| :: n[fs[i].source] == attrs[fs[i].source]
  {
    if forall i | 0 <= i < |fs| :: n[fs[i].source] == attrs[fs[i].source] {
      forall s | s in attrs ensures n[s] == attrs[s] {
        var f :| f in fs && f.source == s;
        var i :| 0 <= i < |fs| && fs[i] == f;
      }
      assert n == attrs;
    }
  }
}
