/**
 The schema-directed codec (`TaggedFields`, `Structure`, `List`, `ChoiceOf` in matter/encoding/tlv.py).
 A schema is a value of type `Type`, so every statement about it covers every message the schema
 compiler can emit. Python's `None` attribute is `None`; the singleton-like `Null()` is `VNull`.
 */
module Schema {
  import opened Wrappers
  import opened Bytes
  import opened Tlv

  datatype SchemaTag =
    | AnyTag
    | AnonymousTag
    | ContextTag(tag: int)
    | ProfileTag(vendor: int, profile: int, tag: int)

  datatype Order = TagOrder | SchemaOrder | AnyOrder

  /** The class attributes a Meta class may define. */
  datatype Meta = Meta(implicitVendor: Option<int>, implicitProfile: Option<int>)

  /** A member: its tag, attribute name, and declared type; the counts are used by tagged lists only. */
  datatype Field = Field(tag: SchemaTag, source: string, optional: bool, ty: Type,
                         minCount: Option<int>, maxCount: Option<int>)

  datatype Type =
    | TBytes(minLen: Option<int>, maxLen: Option<int>)
    | TStr(minLen: Option<int>, maxLen: Option<int>)
    | TBool
    | TInt(signed: bool, min: Option<int>, max: Option<int>)
    | TAny
    | TSeq(isList: bool, item: Type)
    | TStruct(meta: Meta, order: Order, extensible: bool, fields: seq<Field>)
    | TList(meta: Meta, fields: seq<Field>)
    | TChoice(meta: Meta, fields: seq<Field>)
    | TNullable(inner: Type)

  datatype Value =
    | VNull
    | VBool(b: bool)
    | VInt(n: int)
    | VBytes(o: seq<byte>)
    | VStr(s: string)
    | VSeq(vs: seq<Value>)
    | VObj(attrs: map<string, Option<Value>>)
    | VChoice(variant: string, value: Value)
    | VRaw(data: Data)

  // ---------------------------------------------------------------------- tags

  /** Negative, zero or positive, like a `cmp` function. */
  function TagCmp(left: SchemaTag, right: SchemaTag): int {
    if left.AnonymousTag? then if right.AnonymousTag? then 0 else -1
    else if right.AnonymousTag? then 1
    else if left.ContextTag? then if right.ContextTag? then left.tag - right.tag else -1
    else if right.ContextTag? then 1
    else if left.AnyTag? || right.AnyTag? then 0  // such tags have no order; a structure declares none
    else if left.vendor != right.vendor then left.vendor - right.vendor
    else if left.profile != right.profile then left.profile - right.profile
    else left.tag - right.tag
  }

  predicate TagMatches(meta: Meta, want: SchemaTag, have: Option<Tag>) {
    match want
    case AnyTag => true
    case AnonymousTag => have == None
    case ContextTag(n) => have == Some(Context(n))
    case ProfileTag(v, p, n) =>
      match have
      case Some(Common(k)) => v == 0 && p == 0 && n == k
      case Some(Implicit(k)) => meta.implicitVendor == Some(v) && meta.implicitProfile == Some(p) && n == k
      case Some(Qualified(hv, hp, k)) => v == hv && p == hp && n == k
      case _ => false
  }

  /** The wire tag of a member. A fully qualified tag is built with the vendor in both places. */
  function MakeTag(meta: Meta, t: SchemaTag): Result<Option<Tag>> {
    match t
    case AnyTag => Success(None)
    case AnonymousTag => Success(None)
    case ContextTag(n) => Success(Some(Context(n)))
    case ProfileTag(v, p, n) =>
      if v == 0 && p == 0 then Success(Some(Common(n)))
      else if meta.implicitVendor.Some? || meta.implicitProfile.None? then
        if meta.implicitVendor.None? then Failure(AttributeError)
        else if v != meta.implicitVendor.value then Success(Some(Qualified(v, v, n)))
        else if meta.implicitProfile.None? then Failure(AttributeError)
        else if p == meta.implicitProfile.value then Success(Some(Implicit(n)))
        else Success(Some(Qualified(v, v, n)))
      else Success(Some(Qualified(v, v, n)))
  }

  /** Stable insertion by tag: after every member that does not compare greater. */
  function InsertField(f: Field, fs: seq<Field>): (r: seq<Field>)
    ensures multiset(r) == multiset(fs) + multiset{f}
  {
    if fs == [] then [f]
    else if TagCmp(f.tag, fs[0].tag) < 0 then [f] + fs
    else
      assert fs == [fs[0]] + fs[1..];
      [fs[0]] + InsertField(f, fs[1..])
  }

  /** `sort(key=cmp_to_key(_tag_cmp))`. */
  function SortFields(fs: seq<Field>): (r: seq<Field>)
    ensures multiset(r) == multiset(fs)
  {
    if fs == [] then []
    else
      assert fs == fs[..|fs| - 1] + [fs[|fs| - 1]];
      InsertField(fs[|fs| - 1], SortFields(fs[..|fs| - 1]))
  }

  /** The members of a structure in the order in which they are written and expected. */
  function Ordered(t: Type): (r: seq<Field>)
    requires t.TStruct?
    ensures multiset(r) == multiset(t.fields)
    ensures forall f | f in r :: f in t.fields
  {
    var r := if t.order == TagOrder then SortFields(t.fields) else t.fields;
    assert forall f | f in r :: f in multiset(r);
    r
  }

  /** The first member whose tag matches, as `next(filter(...), None)`. */
  function Matching(meta: Meta, fs: seq<Field>, have: Option<Tag>): (r: Option<nat>)
    ensures r.Some? ==> r.value < |fs| && TagMatches(meta, fs[r.value].tag, have)
    ensures r.Some? <==> exists i | 0 <= i < |fs| :: TagMatches(meta, fs[i].tag, have)
  {
    if fs == [] then None
    else if TagMatches(meta, fs[0].tag, have) then Some(0)
    else
      var r := Matching(meta, fs[1..], have);
      assert forall i | 0 < i < |fs| :: fs[i] == fs[1..][i - 1];
      if r.Some? then (assert TagMatches(meta, fs[1 + r.value].tag, have) || true; Some(1 + r.value)) else None
  }

  // ---------------------------------------------------------------------- encoding

  function EncodeType(t: Type, v: Value): Result<Data>
    decreases t, 4, 0
  {
    if v.VNull? then Success(Null)
    else match (t, v)
      case (TNullable(u), _) => EncodeType(u, v)
      case (TBool, VBool(b)) => Success(Bool(b))
      case (TInt(signed, _, _), VInt(n)) => Success(if signed then Int(n) else UInt(n))
      case (TBytes(_, _), VBytes(o)) => Success(Octets(o))
      case (TStr(_, _), VStr(s)) => Success(Str(s))
      case (TAny, VRaw(d)) => Success(d)
      case (TSeq(isList, u), VSeq(vs)) =>
        var items :- EncodeAll(isList, u, vs);
        Success(Container(if isList then List else Array, items))
      case (TStruct(_, _, _, _), VObj(attrs)) =>
        var items :- EncodeToDict(t, Ordered(t), attrs, []);
        Success(Container(Struct, items))
      case (TList(_, _), VObj(attrs)) =>
        var items :- EncodeToList(t, t.fields, attrs);
        Success(Container(List, items))
      case _ => Failure(ValueError)
  }

  /** The elements of a list or array: list elements must be tagged choices, array elements must not. */
  function EncodeAll(isList: bool, u: Type, vs: seq<Value>): Result<seq<Element>>
    decreases u, 5, |vs|
  {
    if vs == [] then Success([])
    else
      var e :- if isList then EncodeChoice(u, vs[0]) else (var d :- EncodeType(u, vs[0]); Success(Element(None, d)));
      var es :- EncodeAll(isList, u, vs[1..]);
      Success([e] + es)
  }

  function EncodeChoice(t: Type, v: Value): Result<Element>
    decreases t, 3, 0
  {
    match (t, v)
    case (TNullable(u), _) => EncodeChoice(u, v)
    case (TChoice(meta, options), VChoice(name, inner)) =>
      (match Named(options, name)
       case None => Failure(StopIteration)
       case Some(i) =>
         var tag :- MakeTag(meta, options[i].tag);
         var d :- EncodeType(options[i].ty, inner);
         Success(Element(tag, d)))
    case _ => Failure(AttributeError)
  }

  function Named(fs: seq<Field>, name: string): (r: Option<nat>)
    ensures r.Some? ==> r.value < |fs| && fs[r.value].source == name
    ensures r.None? ==> forall i | 0 <= i < |fs| :: fs[i].source != name
  {
    if fs == [] then None
    else if fs[0].source == name then Some(0)
    else
      var r := Named(fs[1..], name);
      assert forall i | 0 < i < |fs| :: fs[i] == fs[1..][i - 1];
      if r.Some? then Some(1 + r.value) else None
  }

  /** Is this optional member left out of a structure? Absent values and empty lists are. */
  predicate Skipped(f: Field, v: Option<Value>) {
    f.optional && (v == None || v == Some(VSeq([])))
  }

  function EncodeToDict(t: Type, fs: seq<Field>, attrs: map<string, Option<Value>>,
                        out: seq<Element>): Result<seq<Element>>
    requires t.TStruct? && forall f | f in fs :: f in t.fields
    decreases t, 2, |fs|
  {
    if fs == [] then Success(out)
    else
      var tag :- MakeTag(t.meta, fs[0].tag);
      if fs[0].source !in attrs then Failure(AttributeError)
      else if Skipped(fs[0], attrs[fs[0].source]) then EncodeToDict(t, fs[1..], attrs, out)
      else
        var d :- EncodeMember(t, fs[0], attrs[fs[0].source]);
        EncodeToDict(t, fs[1..], attrs, DictSet(out, Element(tag, d)))
  }

  /** A member's value; a missing value of a required member is written as null. */
  function EncodeMember(t: Type, f: Field, v: Option<Value>): Result<Data>
    requires (t.TStruct? || t.TList?) && f in t.fields
    decreases t, 1, 0
  {
    assert f.ty < t;
    match v case None => Success(Null) case Some(x) => EncodeType(f.ty, x)
  }

  function EncodeToList(t: Type, fs: seq<Field>, attrs: map<string, Option<Value>>): Result<seq<Element>>
    requires t.TList? && forall f | f in fs :: f in t.fields
    decreases t, 2, |fs|
  {
    if fs == [] then Success([])
    else
      var tag :- MakeTag(t.meta, fs[0].tag);
      if fs[0].source !in attrs then Failure(AttributeError)
      else if fs[0].optional && attrs[fs[0].source] == None then EncodeToList(t, fs[1..], attrs)
      else
        var d :- EncodeMember(t, fs[0], attrs[fs[0].source]);
        var es :- EncodeToList(t, fs[1..], attrs);
        Success([Element(tag, d)] + es)
  }

  // ---------------------------------------------------------------------- decoding

  predicate InBounds(n: int, min: Option<int>, max: Option<int>) {
    (min.Some? ==> min.value <= n) && (max.Some? ==> n <= max.value)
  }

  function Checked(ok: bool, v: Value): Result<Value> {
    if ok then Success(v) else Failure(ValueError)
  }

  function DecodeType(t: Type, d: Data): Result<Value>
    decreases t, 4, 0
  {
    match (t, d)
    case (TNullable(u), Null) => Success(VNull)
    case (TNullable(u), _) => DecodeType(u, d)
    case (_, Null) => Failure(ValueError)
    case (TBytes(lo, hi), Octets(o)) => Checked(InBounds(|o|, lo, hi), VBytes(o))
    case (TStr(lo, hi), Str(s)) => Checked(InBounds(|s|, lo, hi), VStr(s))
    case (TBool, Bool(b)) => Success(VBool(b))
    case (TInt(true, lo, hi), Int(n)) => Checked(InBounds(n, lo, hi), VInt(n))
    case (TInt(false, lo, hi), UInt(n)) => Checked(InBounds(n, lo, hi), VInt(n))
    case (TAny, _) => Success(VRaw(d))
    case (TChoice(_, _), _) => Failure(AttributeError)  // bare data has no tag to choose by
    case (TSeq(isList, u), Container(kind, items)) =>
      if kind != (if isList then List else Array) then Failure(ValueError)
      else var vs :- DecodeAll(isList, u, items); Success(VSeq(vs))
    case (TStruct(_, _, _, _), Container(Struct, entries)) => DecodeFromDict(t, entries)
    case (TList(_, _), Container(List, items)) =>
      var out :- DecodeFromList(t, t.fields, items, map[]); Success(VObj(out))
    case _ => Failure(ValueError)
  }

  function DecodeAll(isList: bool, u: Type, items: seq<Element>): Result<seq<Value>>
    decreases u, 5, |items|
  {
    if items == [] then Success([])
    else
      var v :- if isList then DecodeChoice(u, items[0]) else DecodeType(u, items[0].data);
      var vs :- DecodeAll(isList, u, items[1..]);
      Success([v] + vs)
  }

  /** The last option whose tag matches decides. */
  function DecodeChoice(t: Type, e: Element): Result<Value>
    decreases t, 3, 0
  {
    match t
    case TNullable(u) => DecodeChoice(u, e)
    case TChoice(meta, options) =>
      (match LastMatching(meta, options, e.tag)
       case None => Failure(ValueError)
       case Some(i) => var v :- DecodeType(options[i].ty, e.data); Success(VChoice(options[i].source, v)))
    case _ => Failure(ValueError)
  }

  function LastMatching(meta: Meta, fs: seq<Field>, have: Option<Tag>): (r: Option<nat>)
    ensures r.Some? ==> r.value < |fs| && TagMatches(meta, fs[r.value].tag, have)
    ensures r.None? ==> forall i | 0 <= i < |fs| :: !TagMatches(meta, fs[i].tag, have)
  {
    if fs == [] then None
    else if TagMatches(meta, fs[|fs| - 1].tag, have) then Some(|fs| - 1)
    else LastMatching(meta, fs[..|fs| - 1], have)
  }

  /**
   The first loop of the structure decoder: the member of each entry. `None` is an unknown tag that is let
   through once; reporting a second one fails for lack of a member to name.
   */
  function MatchEntries(t: Type, fs: seq<Field>, entries: seq<Element>,
                        seen: seq<Option<nat>>): Result<seq<Option<nat>>>
    requires t.TStruct?
    decreases |entries|
  {
    if entries == [] then Success(seen)
    else
      var m := Matching(t.meta, fs, entries[0].tag);
      if m.None? && !t.extensible then Failure(ValueError)
      else if m in seen then Failure(if m.None? then AttributeError else ValueError)
      else MatchEntries(t, fs, entries[1..], seen + [m])
  }

  /**
   The second loop: walk the expected members from index i, letting optional ones be absent. The
   result lists the absent members.
   */
  function Align(fs: seq<Field>, have: seq<Option<nat>>, i: nat): Result<seq<string>>
    requires i <= |fs|
    decreases |fs| - i
  {
    if i == |fs| then if have == [] then Success([]) else Failure(IndexError)
    else if have != [] && have[0] == Some(i) then Align(fs, have[1..], i + 1)
    else if fs[i].optional then
      var absent :- Align(fs, have, i + 1);
      Success([fs[i].source] + absent)
    else Failure(ValueError)
  }

  function AbsentAttrs(absent: seq<string>): map<string, Option<Value>> {
    map s | s in absent :: None
  }

  function DecodeFromDict(t: Type, entries: seq<Element>): Result<Value>
    requires t.TStruct?
    decreases t, 3, 0
  {
    if t.order == AnyOrder then Failure(NotImplementedError)
    else
      var fs := Ordered(t);
      var have :- MatchEntries(t, fs, entries, []);
      var absent :- Align(fs, have, 0);
      var out :- DecodeValues(t, fs, have, entries, AbsentAttrs(absent));
      Success(VObj(out))
  }

  function DecodeValues(t: Type, fs: seq<Field>, have: seq<Option<nat>>, entries: seq<Element>,
                        out: map<string, Option<Value>>)
    : Result<map<string, Option<Value>>>
    requires t.TStruct? && forall f | f in fs :: f in t.fields
    decreases t, 2, |have|
  {
    if have == [] || entries == [] then Success(out)
    else if have[0].None? || have[0].value >= |fs| then Failure(AttributeError)
    else
      var f := fs[have[0].value];
      assert f in t.fields && f.ty < t;
      var v :- DecodeType(f.ty, entries[0].data);
      DecodeValues(t, fs, have[1..], entries[1..], out[f.source := Some(v)])
  }

  /** Number of leading elements that carry the wanted tag. */
  function Run(meta: Meta, want: SchemaTag, items: seq<Element>): (k: nat)
    ensures k <= |items|
    ensures forall i | 0 <= i < k :: TagMatches(meta, want, items[i].tag)
    ensures k < |items| ==> !TagMatches(meta, want, items[k].tag)
  {
    if items == [] || !TagMatches(meta, want, items[0].tag) then 0 else 1 + Run(meta, want, items[1..])
  }

  function DecodeFromList(t: Type, fs: seq<Field>, items: seq<Element>, out: map<string, Option<Value>>)
    : Result<map<string, Option<Value>>>
    requires t.TList? && forall f | f in fs :: f in t.fields
    decreases t, 2, |fs|
  {
    if fs == [] then Success(out)
    else
      var f := fs[0];
      assert f in t.fields && f.ty < t;
      var k := Run(t.meta, f.tag, items);
      var vs :- DecodeAll(false, f.ty, items[..k]);
      if !InBounds(k, f.minCount, f.maxCount) then Failure(ValueError)
      else
        var v := if !f.optional then Some(VSeq(vs)) else if vs == [] then None else Some(vs[0]);
        DecodeFromList(t, fs[1..], items[k..], out[f.source := v])
  }

  // ---------------------------------------------------------------------- whole messages

  /** `encode_to_bytes` of a structure or tagged list. */
  function EncodeMessage(t: Type, v: Value): Result<seq<byte>> {
    var d :- EncodeType(t, v);
    Encode(Element(None, d))
  }

  /** `decode_from_bytes` of a structure or tagged list; whatever follows the element is ignored. */
  function DecodeMessage(t: Type, b: seq<byte>): Result<Value> {
    var (e, n) :- DecodeElement(b);
    if e.tag != None || !e.data.Container? then Failure(ValueError)
    else DecodeType(t, e.data)
  }
}
