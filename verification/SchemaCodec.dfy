/**
 The loops of the schema-directed codec as the program runs them, each computing the function of module
 Schema that specifies it.
 */
module SchemaCodec {
  import opened Wrappers
  import opened Tlv
  import opened Schema

  /** First loop of `_decode_from_dict`: find each entry's member, refuse unknown tags and repeats. */
  method MatchFields(t: Type, fs: seq<Field>, entries: seq<Element>) returns (r: Result<seq<Option<nat>>>)
    requires t.TStruct?
    ensures r == MatchEntries(t, fs, entries, [])
  {
    var seen: seq<Option<nat>> := [];
    assert entries[0..] == entries;
    for k := 0 to |entries|
      invariant MatchEntries(t, fs, entries, []) == MatchEntries(t, fs, entries[k..], seen)
    {
      assert entries[k..][1..] == entries[k + 1..];
      var m := Matching(t.meta, fs, entries[k].tag);
      if m.None? && !t.extensible { return Failure(ValueError); }
      if m in seen { return Failure(if m.None? then AttributeError else ValueError); }
      seen := seen + [m];
    }
    return Success(seen);
  }

  /** Second and third loop of `_decode_from_dict`: the order-and-presence walk over the expected members. */
  method CheckOrder(fs: seq<Field>, have: seq<Option<nat>>) returns (r: Result<seq<string>>)
    ensures r == Align(fs, have, 0)
  {
    var absent: seq<string>, i := [], 0;
    assert have[0..] == have
           && (Align(fs, have, 0).Success? ==> [] + Align(fs, have, 0).value == Align(fs, have, 0).value);
    for k := 0 to |have|
      invariant i <= |fs| && Align(fs, have, 0) == Appended(absent, Align(fs, have[k..], i))
    {
      while i < |fs| && have[k] != Some(i)
        invariant i <= |fs| && Align(fs, have, 0) == Appended(absent, Align(fs, have[k..], i))
        decreases |fs| - i
      {
        if !fs[i].optional { return Failure(ValueError); }
        AppendedTwice(absent, [fs[i].source], Align(fs, have[k..], i + 1));
        absent := absent + [fs[i].source];
        i := i + 1;
      }
      if i == |fs| { return Failure(IndexError); }
      assert have[k..][1..] == have[k + 1..];
      i := i + 1;
    }
    while i != |fs|
      invariant i <= |fs| && Align(fs, have, 0) == Appended(absent, Align(fs, [], i))
      decreases |fs| - i
    {
      if !fs[i].optional { return Failure(ValueError); }
      AppendedTwice(absent, [fs[i].source], Align(fs, [], i + 1));
      absent := absent + [fs[i].source];
      i := i + 1;
    }
    AppendedTwice(absent, [], Align(fs, [], i));
    return Success(absent);
  }

  /** The loop of `_encode_to_dict` over the ordered members. */
  method EncodeFields(t: Type, attrs: map<string, Option<Value>>) returns (r: Result<seq<Element>>)
    requires t.TStruct?
    ensures r == EncodeToDict(t, Ordered(t), attrs, [])
  {
    var fs := Ordered(t);
    var out: seq<Element> := [];
    assert fs[0..] == fs;
    for k := 0 to |fs|
      invariant EncodeToDict(t, fs, attrs, []) == EncodeToDict(t, fs[k..], attrs, out)
    {
      var f := fs[k];
      assert f in fs && fs[k..][0] == f && fs[k..][1..] == fs[k + 1..];
      var tag := MakeTag(t.meta, f.tag);
      if tag.Failure? { return Failure(tag.error); }
      if f.source !in attrs { return Failure(AttributeError); }
      if !Skipped(f, attrs[f.source]) {
        var d := EncodeMember(t, f, attrs[f.source]);
        if d.Failure? { return Failure(d.error); }
        out := DictSet(out, Element(tag.value, d.value));
      }
    }
    return Success(out);
  }

  /** The inner loop of `_decode_from_list`: decode the elements from `i` on that carry the member's tag. */
  method DecodeRun(meta: Meta, f: Field, items: seq<Element>, i: nat) returns (r: Result<seq<Value>>, j: nat)
    requires i <= |items|
    ensures r == DecodeAll(false, f.ty, items[i..][..Run(meta, f.tag, items[i..])])
    ensures r.Success? ==> j == i + Run(meta, f.tag, items[i..])
  {
    hide DecodeType, Run, TagMatches;
    var vs: seq<Value> := [];
    j := i;
    ghost var run := items[i..][..Run(meta, f.tag, items[i..])];
    assert run[0..] == run
           && (DecodeAll(false, f.ty, run).Success? ==>
               [] + DecodeAll(false, f.ty, run).value == DecodeAll(false, f.ty, run).value);
    while j < |items| && TagMatches(meta, f.tag, items[j].tag)
      invariant i <= j <= i + |run|
      invariant DecodeAll(false, f.ty, run) == Appended(vs, DecodeAll(false, f.ty, run[j - i..]))
      decreases |items| - j
    {
      assert run[j - i..][1..] == run[j + 1 - i..] && run[j - i] == items[j];
      var v := DecodeType(f.ty, items[j].data);
      if v.Failure? { return Failure(v.error), j; }
      AppendedTwice(vs, [v.value], DecodeAll(false, f.ty, run[j + 1 - i..]));
      vs := vs + [v.value];
      j := j + 1;
    }
    AppendedTwice(vs, [], DecodeAll(false, f.ty, run[j - i..]));
    r := Success(vs);
  }

  /** The outer loop of `_decode_from_list`. */
  method DecodeMembers(t: Type, items: seq<Element>) returns (r: Result<map<string, Option<Value>>>)
    requires t.TList?
    ensures r == DecodeFromList(t, t.fields, items, map[])
  {
    hide DecodeFromList, DecodeAll, Run;
    var i := 0;
    var out: map<string, Option<Value>> := map[];
    assert t.fields[0..] == t.fields && items[0..] == items;
    for k := 0 to |t.fields|
      invariant i <= |items|
      invariant DecodeFromList(t, t.fields, items, map[]) == DecodeFromList(t, t.fields[k..], items[i..], out)
    {
      var f := t.fields[k];
      assert f in t.fields && t.fields[k..][0] == f && t.fields[k..][1..] == t.fields[k + 1..];
      MemberTurn(t, t.fields[k..], items[i..], out);
      var vs, j := DecodeRun(t.meta, f, items, i);
      if vs.Failure? { return Failure(vs.error); }
      if !InBounds(j - i, f.minCount, f.maxCount) { return Failure(ValueError); }
      assert items[i..][j - i..] == items[j..];
      var v := if !f.optional then Some(VSeq(vs.value)) else if vs.value == [] then None else Some(vs.value[0]);
      out := out[f.source := v];
      i := j;
    }
    NoMembers(t, items[i..], out);
    return Success(out);
  }

  lemma NoMembers(t: Type, items: seq<Element>, out: map<string, Option<Value>>)
    requires t.TList?
    ensures DecodeFromList(t, [], items, out) == Success(out)
  {
  }

  lemma MemberTurn(t: Type, fs: seq<Field>, items: seq<Element>, out: map<string, Option<Value>>)
    requires t.TList? && fs != [] && forall f | f in fs :: f in t.fields
    ensures var f := fs[0];
            var k := Run(t.meta, f.tag, items);
            var vs := DecodeAll(false, f.ty, items[..k]);
            DecodeFromList(t, fs, items, out) ==
            if vs.Failure? then Failure(vs.error)
            else if !InBounds(k, f.minCount, f.maxCount) then Failure(ValueError)
            else DecodeFromList(t, fs[1..], items[k..],
                                out[f.source := if !f.optional then Some(VSeq(vs.value))
                                    else if vs.value == [] then None else Some(vs.value[0])])
  {
    hide DecodeAll, Run;
  }
}
