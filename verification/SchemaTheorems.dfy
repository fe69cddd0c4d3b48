/** What the schema-directed codec guarantees for every schema. */
module SchemaTheorems {
  import opened Wrappers
  import opened Tlv
  import opened Schema

  // ---------------------------------------------------------------------- wire tags

  /** The vendor, profile and number that a wire tag stands for in a class. */
  function StandsFor(meta: Meta, t: Tag): Option<(int, int, int)> {
    match t
    case Context(_) => None
    case Common(n) => Some((0, 0, n))
    case Implicit(n) =>
      if meta.implicitVendor.Some? && meta.implicitProfile.Some?
      then Some((meta.implicitVendor.value, meta.implicitProfile.value, n)) else None
    case Qualified(v, p, n) => Some((v, p, n))
  }

  /** Exactly which wire tags a member answers to. */
  lemma TagMatchesIff(meta: Meta, want: SchemaTag, have: Option<Tag>)
    ensures TagMatches(meta, want, have) <==>
            (match want
             case AnyTag => true
             case AnonymousTag => have.None?
             case ContextTag(n) => have == Some(Context(n))
             case ProfileTag(v, p, n) => have.Some? && StandsFor(meta, have.value) == Some((v, p, n)))
  {
  }

  /** The members whose wire tag the decoder recognises. */
  predicate TagRecognised(meta: Meta, t: SchemaTag) {
    MakeTag(meta, t).Success? && TagMatches(meta, t, MakeTag(meta, t).value)
  }

  /**
   A member's tag survives encoding exactly when it is not profile-specific, is a common tag, equals the
   implicit profile, or has vendor and profile equal (and the class defines enough to reach that form).
   */
  lemma TagRecognisedIff(meta: Meta, t: SchemaTag)
    ensures TagRecognised(meta, t) <==>
            (t.ProfileTag? ==>
              || (t.vendor == 0 && t.profile == 0)
              || (meta.implicitVendor == Some(t.vendor) && meta.implicitProfile == Some(t.profile))
              || (t.vendor == t.profile
                  && if meta.implicitVendor.Some?
                     then t.vendor != meta.implicitVendor.value || meta.implicitProfile.Some?
                     else meta.implicitProfile.Some?))
  {
  }

  /** Vendor 1, profile 2 is written as vendor 1, profile 1 and not found again. */
  lemma ProfileTagLost()
    ensures var meta := Meta(None, Some(1));
            MakeTag(meta, ProfileTag(1, 2, 3)) == Success(Some(Qualified(1, 1, 3)))
              && !TagRecognised(meta, ProfileTag(1, 2, 3))
  {
  }

  /** Anonymous tags come first, then context tags by number, then profile tags by vendor, profile and number. */
  predicate TagBelow(a: SchemaTag, b: SchemaTag) {
    match (a, b)
    case (AnonymousTag, ContextTag(_)) => true
    case (AnonymousTag, ProfileTag(_, _, _)) => true
    case (ContextTag(m), ContextTag(n)) => m < n
    case (ContextTag(_), ProfileTag(_, _, _)) => true
    case (ProfileTag(v, p, m), ProfileTag(w, q, n)) => v < w || (v == w && (p < q || (p == q && m < n)))
    case _ => false
  }

  predicate SortedByTag(fs: seq<Field>) {
    forall i, j | 0 <= i < j < |fs| :: !TagBelow(fs[j].tag, fs[i].tag)
  }

  predicate NoAnyTag(fs: seq<Field>) {
    forall f | f in fs :: !f.tag.AnyTag?
  }

  /** The comparison is that order, which is total. */
  lemma TagCmpIsOrder(a: SchemaTag, b: SchemaTag)
    requires !a.AnyTag? && !b.AnyTag?
    ensures TagCmp(a, b) < 0 <==> TagBelow(a, b)
    ensures TagCmp(a, b) > 0 <==> TagBelow(b, a)
    ensures TagCmp(a, b) == 0 <==> a == b
  {
  }

  lemma TagBelowTransitive(a: SchemaTag, b: SchemaTag, c: SchemaTag)
    requires !a.AnyTag? && !b.AnyTag? && !c.AnyTag?
    ensures !TagBelow(b, a) && !TagBelow(c, b) ==> !TagBelow(c, a)
    ensures !TagBelow(a, a) && !(TagBelow(a, b) && TagBelow(b, a)) && (a == b || TagBelow(a, b) || TagBelow(b, a))
  {
  }

  lemma {:induction false} InsertSorted(f: Field, fs: seq<Field>)
    requires SortedByTag(fs) && NoAnyTag([f] + fs)
    ensures SortedByTag(InsertField(f, fs))
  {
    hide TagCmp, TagBelow;
    var r := InsertField(f, fs);
    assert f in [f] + fs && forall g | g in fs :: g in [f] + fs;
    if fs != [] {
      TagCmpIsOrder(f.tag, fs[0].tag);
      TagBelowTransitive(f.tag, fs[0].tag, f.tag);
      if TagCmp(f.tag, fs[0].tag) < 0 {
        forall j | 0 < j < |r| ensures !TagBelow(r[j].tag, r[0].tag) {
          assert fs[j - 1] in fs;
          TagBelowTransitive(f.tag, fs[0].tag, fs[j - 1].tag);
          TagBelowTransitive(fs[0].tag, fs[0].tag, fs[0].tag);
        }
      } else {
        InsertSorted(f, fs[1..]);
        forall j | 0 < j < |r| ensures !TagBelow(r[j].tag, r[0].tag) {
          assert r[j] in multiset(InsertField(f, fs[1..]));
        }
      }
    }
  }

  lemma SortedNoAny(fs: seq<Field>, n: nat)
    requires NoAnyTag(fs) && n < |fs|
    ensures NoAnyTag(fs[..n]) && NoAnyTag([fs[n]] + SortFields(fs[..n]))
  {
    var s := SortFields(fs[..n]);
    hide SortFields;
    forall g | g in s ensures g in fs {
      assert g in multiset(s) && g in fs[..n];
    }
  }

  lemma EmptySorted()
    ensures SortFields([]) == [] && SortedByTag([])
  {
  }

  /** The members with a tag, in their order. */
  function WithTag(fs: seq<Field>, tag: SchemaTag): seq<Field> {
    if fs == [] then [] else (if fs[0].tag == tag then [fs[0]] else []) + WithTag(fs[1..], tag)
  }

  lemma WithTagCons(f: Field, fs: seq<Field>, tag: SchemaTag)
    ensures WithTag([f] + fs, tag) == (if f.tag == tag then [f] else []) + WithTag(fs, tag)
  {
    assert ([f] + fs)[1..] == fs;
  }

  lemma {:induction false} WithTagConcat(a: seq<Field>, b: seq<Field>, tag: SchemaTag)
    ensures WithTag(a + b, tag) == WithTag(a, tag) + WithTag(b, tag)
  {
    if a == [] {
      assert a + b == b && [] + WithTag(b, tag) == WithTag(b, tag);
    } else {
      hide WithTag;
      var rest := a[1..];
      WithTagConcat(rest, b, tag);
      WithTagCons(a[0], rest + b, tag);
      WithTagCons(a[0], rest, tag);
      assert [a[0]] + rest == a;
      Regroup([a[0]], rest, b);
      Regroup(if a[0].tag == tag then [a[0]] else [], WithTag(rest, tag), WithTag(b, tag));
    }
  }

  lemma {:induction false} NoneWithTag(fs: seq<Field>, tag: SchemaTag)
    requires forall f | f in fs :: f.tag != tag
    ensures WithTag(fs, tag) == []
  {
    if fs != [] { NoneWithTag(fs[1..], tag); }
  }

  lemma NoneBelow(f: Field, fs: seq<Field>)
    requires SortedByTag(fs) && NoAnyTag([f] + fs) && fs != [] && TagBelow(f.tag, fs[0].tag)
    ensures forall g | g in fs :: g.tag != f.tag
  {
    hide TagBelow;
    assert f in [f] + fs && forall g | g in fs :: g in [f] + fs;
    forall g | g in fs ensures g.tag != f.tag {
      var j :| 0 <= j < |fs| && fs[j] == g;
      TagBelowTransitive(f.tag, fs[0].tag, f.tag);
      TagBelowTransitive(fs[0].tag, fs[0].tag, fs[0].tag);
    }
  }

  lemma {:induction false} InsertStable(f: Field, fs: seq<Field>, tag: SchemaTag)
    requires SortedByTag(fs) && NoAnyTag([f] + fs)
    ensures WithTag(InsertField(f, fs), tag) == WithTag(fs, tag) + if f.tag == tag then [f] else []
  {
    hide TagCmp, TagBelow, WithTag;
    var here := if f.tag == tag then [f] else [];
    assert f in [f] + fs && forall g | g in fs :: g in [f] + fs;
    NoneWithTag([], tag);
    WithTagCons(f, fs, tag);
    if fs == [] {
      assert here + [] == [] + here && [f] + [] == [f];
    } else {
      TagCmpIsOrder(f.tag, fs[0].tag);
      if TagCmp(f.tag, fs[0].tag) < 0 {
        NoneBelow(f, fs);
        if f.tag == tag { NoneWithTag(fs, tag); }
        assert here + WithTag(fs, tag) == WithTag(fs, tag) + here;
      } else {
        InsertStable(f, fs[1..], tag);
        WithTagCons(fs[0], InsertField(f, fs[1..]), tag);
        WithTagCons(fs[0], fs[1..], tag);
        assert [fs[0]] + fs[1..] == fs;
        hide InsertField, SortedByTag, NoAnyTag;
        Regroup(if fs[0].tag == tag then [fs[0]] else [], WithTag(fs[1..], tag), here);
      }
    }
  }

  /**
   A tag-ordered structure is written, and expected, in ascending tag order, and members with one tag in their
   declared order.
   */
  lemma {:induction false} SortFieldsSorted(fs: seq<Field>)
    requires NoAnyTag(fs)
    ensures SortedByTag(SortFields(fs)) && forall tag :: WithTag(SortFields(fs), tag) == WithTag(fs, tag)
  {
    hide TagCmp, InsertField, SortedByTag, NoAnyTag;
    if fs == [] {
      EmptySorted();
    } else {
      var n := |fs| - 1;
      SortedNoAny(fs, n);
      SortFieldsSorted(fs[..n]);
      InsertSorted(fs[n], SortFields(fs[..n]));
      forall tag ensures WithTag(SortFields(fs), tag) == WithTag(fs, tag) {
        InsertStable(fs[n], SortFields(fs[..n]), tag);
        WithTagConcat(fs[..n], [fs[n]], tag);
        WithTagCons(fs[n], [], tag);
        assert fs == fs[..n] + [fs[n]] && [fs[n]] + [] == [fs[n]];
      }
    }
  }

  /** The order of a structure's members on the wire: by tag, or as declared. */
  lemma OrderedIs(t: Type)
    requires t.TStruct? && NoAnyTag(t.fields)
    ensures t.order == TagOrder ==>
              SortedByTag(Ordered(t)) && forall tag :: WithTag(Ordered(t), tag) == WithTag(t.fields, tag)
    ensures t.order != TagOrder ==> Ordered(t) == t.fields
  {
    SortFieldsSorted(t.fields);
    hide SortFields, WithTag;
  }

  // ---------------------------------------------------------------------- order and presence of members

  /** The entries are known members, each after the one before. */
  predicate Ascending(have: seq<Option<nat>>, i: nat, n: nat) {
    && (forall k | 0 <= k < |have| :: have[k].Some? && i <= have[k].value < n)
    && (forall k, l | 0 <= k < l < |have| :: have[k].Some? && have[l].Some? ==> have[k].value < have[l].value)
  }

  /** Sources of the members from i on that have no entry. */
  function Missing(fs: seq<Field>, have: seq<Option<nat>>, i: nat): seq<string>
    requires i <= |fs|
    decreases |fs| - i
  {
    if i == |fs| then []
    else if Some(i) in have then Missing(fs, have, i + 1)
    else [fs[i].source] + Missing(fs, have, i + 1)
  }

  lemma AscendingHead(have: seq<Option<nat>>, i: nat, n: nat)
    requires have != [] && have[0] == Some(i) && i < n
    ensures Ascending(have, i, n) <==> Ascending(have[1..], i + 1, n)
  {
    if Ascending(have[1..], i + 1, n) {
      assert forall k | 0 < k < |have| :: have[k] == have[1..][k - 1];
    }
  }

  lemma AscendingSkip(have: seq<Option<nat>>, i: nat, n: nat)
    requires have == [] || have[0] != Some(i)
    ensures Ascending(have, i, n) <==> Ascending(have, i + 1, n)
    ensures Ascending(have, i, n) ==> Some(i) !in have
  {
    if Ascending(have, i, n) {
      assert forall k | 0 <= k < |have| :: have[k].value >= have[0].value > i;
    }
  }

  /**
   The order-and-presence walk accepts exactly the subsequences of the expected members that contain
   every required one, and reports exactly the members that are missing. In particular an entry that an
   extensible structure let through (`None`) is always refused here.
   */
  lemma {:induction false} AlignIff(fs: seq<Field>, have: seq<Option<nat>>, i: nat)
    requires i <= |fs|
    ensures Align(fs, have, i).Success? <==>
            Ascending(have, i, |fs|) && forall j | i <= j < |fs| && Some(j) !in have :: fs[j].optional
    ensures Align(fs, have, i).Success? ==> Align(fs, have, i).value == Missing(fs, have, i)
    decreases |fs| - i
  {
    if i == |fs| {
      assert have != [] ==> !(have[0].Some? && i <= have[0].value < |fs|);
    } else if have != [] && have[0] == Some(i) {
      AscendingHead(have, i, |fs|);
      hide Ascending;
      AlignIff(fs, have[1..], i + 1);
      MissingTail(fs, have, i + 1);
      assert forall j | i < j :: Some(j) in have <==> Some(j) in have[1..];
    } else {
      AscendingSkip(have, i, |fs|);
      hide Ascending;
      AlignIff(fs, have, i + 1);
    }
  }

  lemma {:induction false} MissingTail(fs: seq<Field>, have: seq<Option<nat>>, i: nat)
    requires have != [] && have[0].Some? && have[0].value < i <= |fs|
    ensures Missing(fs, have, i) == Missing(fs, have[1..], i)
    decreases |fs| - i
  {
    if i < |fs| {
      MissingTail(fs, have, i + 1);
      assert Some(i) in have <==> Some(i) in have[1..];
    }
  }

  /** The member of each entry by first matching tag. */
  function Members(t: Type, fs: seq<Field>, entries: seq<Element>): (r: seq<Option<nat>>)
    requires t.TStruct?
    ensures |r| == |entries|
  {
    seq(|entries|, k requires 0 <= k < |entries| => Matching(t.meta, fs, entries[k].tag))
  }

  lemma MembersCons(t: Type, fs: seq<Field>, entries: seq<Element>)
    requires t.TStruct? && entries != []
    ensures Members(t, fs, entries) == [Matching(t.meta, fs, entries[0].tag)] + Members(t, fs, entries[1..])
  {
  }

  /** The entry's member may follow those seen: it is known, or unknown tags are let through, and it is not repeated. */
  predicate LetThrough(extensible: bool, seen: seq<Option<nat>>, x: Option<nat>) {
    (x.Some? || extensible) && x !in seen
  }

  predicate Passes(extensible: bool, seen: seq<Option<nat>>, m: seq<Option<nat>>, j: nat) {
    j < |m| && LetThrough(extensible, seen + m[..j], m[j])
  }

  /** Entry k is the first that is refused. A second unknown tag, which cannot be named, is refused differently. */
  predicate RefusedAt(extensible: bool, seen: seq<Option<nat>>, m: seq<Option<nat>>, k: nat, error: Error) {
    && k < |m| && (forall j: nat | j < k :: Passes(extensible, seen, m, j)) && !Passes(extensible, seen, m, k)
    && error == if m[k].None? && extensible then AttributeError else ValueError
  }

  lemma PassesLater(extensible: bool, seen: seq<Option<nat>>, x: Option<nat>, m: seq<Option<nat>>, j: nat)
    ensures Passes(extensible, seen, [x] + m, j + 1) <==> Passes(extensible, seen + [x], m, j)
    ensures Passes(extensible, seen, [x] + m, 0) <==> LetThrough(extensible, seen, x)
  {
    hide LetThrough;
    var all := [x] + m;
    assert seen + all[..0] == seen;
    if j < |m| { assert seen + all[..j + 1] == seen + [x] + m[..j]; }
  }

  lemma RefusedLater(extensible: bool, seen: seq<Option<nat>>, x: Option<nat>, m: seq<Option<nat>>, k: nat,
                     error: Error)
    requires LetThrough(extensible, seen, x)
    ensures RefusedAt(extensible, seen, [x] + m, k + 1, error) <==> RefusedAt(extensible, seen + [x], m, k, error)
    ensures !RefusedAt(extensible, seen, [x] + m, 0, error)
  {
    hide Passes, LetThrough;
    forall j: nat ensures Passes(extensible, seen, [x] + m, j + 1) <==> Passes(extensible, seen + [x], m, j) {
      PassesLater(extensible, seen, x, m, j);
    }
    PassesLater(extensible, seen, x, m, 0);
    if RefusedAt(extensible, seen, [x] + m, k + 1, error) {
      forall j: nat | j < k ensures Passes(extensible, seen + [x], m, j) {
        assert Passes(extensible, seen, [x] + m, j + 1);
      }
    }
    if RefusedAt(extensible, seen + [x], m, k, error) {
      forall j: nat | j < k + 1 ensures Passes(extensible, seen, [x] + m, j) {
        if j > 0 { assert Passes(extensible, seen + [x], m, j - 1); }
      }
    }
  }

  /** The first loop fails at the first entry that is refused. */
  lemma {:induction false} MatchEntriesFailsIff(t: Type, fs: seq<Field>, entries: seq<Element>, seen: seq<Option<nat>>,
                                                error: Error)
    requires t.TStruct?
    ensures MatchEntries(t, fs, entries, seen) == Failure(error) <==>
            exists k: nat :: RefusedAt(t.extensible, seen, Members(t, fs, entries), k, error)
  {
    if entries != [] {
      var x, rest := Matching(t.meta, fs, entries[0].tag), Members(t, fs, entries[1..]);
      MembersCons(t, fs, entries);
      hide Members, Matching;
      if LetThrough(t.extensible, seen, x) {
        MatchEntriesFailsIff(t, fs, entries[1..], seen + [x], error);
        forall k: nat
          ensures RefusedAt(t.extensible, seen, [x] + rest, k + 1, error) <==>
                  RefusedAt(t.extensible, seen + [x], rest, k, error)
        {
          RefusedLater(t.extensible, seen, x, rest, k, error);
        }
        RefusedLater(t.extensible, seen, x, rest, 0, error);
        hide RefusedAt, LetThrough, Passes;
        if k: nat :| RefusedAt(t.extensible, seen, [x] + rest, k, error) {
          assert RefusedAt(t.extensible, seen + [x], rest, k - 1, error);
        }
      } else {
        PassesLater(t.extensible, seen, x, rest, 0);
        assert RefusedAt(t.extensible, seen, [x] + rest, 0,
                         if x.None? && t.extensible then AttributeError else ValueError);
      }
    }
  }

  lemma {:induction false} MatchEntriesValue(t: Type, fs: seq<Field>, entries: seq<Element>, seen: seq<Option<nat>>)
    requires t.TStruct?
    ensures var have := MatchEntries(t, fs, entries, seen);
            have.Success? ==> have.value == seen + Members(t, fs, entries)
  {
    if entries != [] {
      MembersCons(t, fs, entries);
      MatchEntriesValue(t, fs, entries[1..], seen + [Matching(t.meta, fs, entries[0].tag)]);
    }
  }

  /** Ascending members are known and never repeat, so the first loop lets them through. */
  lemma {:induction false} AscendingMatches(t: Type, fs: seq<Field>, entries: seq<Element>, seen: seq<Option<nat>>,
                                            i: nat)
    requires t.TStruct? && Ascending(Members(t, fs, entries), i, |fs|)
    requires forall m | m in seen :: m.Some? && m.value < i
    ensures MatchEntries(t, fs, entries, seen).Success?
  {
    if entries != [] {
      MembersCons(t, fs, entries);
      var m := Members(t, fs, entries);
      assert m[1..] == Members(t, fs, entries[1..]);
      assert forall k | 0 < k < |m| :: m[k] == m[1..][k - 1];
      AscendingMatches(t, fs, entries[1..], seen + [m[0]], m[0].value + 1);
    }
  }

  /**
   The structure decoder gets past its checks exactly when the entries' members are a subsequence of the
   expected members that contains every required one; `extensible` makes no difference.
   */
  lemma StructureAcceptsIff(t: Type, entries: seq<Element>)
    requires t.TStruct?
    ensures var fs := Ordered(t);
            var have := MatchEntries(t, fs, entries, []);
            var m := Members(t, fs, entries);
            (have.Success? && Align(fs, have.value, 0).Success?) <==>
            (Ascending(m, 0, |fs|) && forall j | 0 <= j < |fs| && Some(j) !in m :: fs[j].optional)
  {
    var fs := Ordered(t);
    var m := Members(t, fs, entries);
    MatchEntriesValue(t, fs, entries, []);
    assert [] + m == m;
    AlignIff(fs, m, 0);
    if Ascending(m, 0, |fs|) {
      AscendingMatches(t, fs, entries, [], 0);
    }
  }

  // ---------------------------------------------------------------------- decoded attributes

  predicate UniqueSources(fs: seq<Field>) {
    forall i, j | 0 <= i < j < |fs| :: fs[i].source != fs[j].source
  }

  lemma {:induction false} InsertUnique(f: Field, fs: seq<Field>)
    requires UniqueSources(fs) && forall g | g in fs :: g.source != f.source
    ensures UniqueSources(InsertField(f, fs))
  {
    if fs != [] && TagCmp(f.tag, fs[0].tag) >= 0 {
      InsertUnique(f, fs[1..]);
      var r := InsertField(f, fs[1..]);
      forall g | g in r ensures g.source != fs[0].source {
        assert g in multiset(r);
        assert g == f || g in fs[1..];
      }
    }
  }

  lemma {:induction false} SortUnique(fs: seq<Field>)
    requires UniqueSources(fs)
    ensures UniqueSources(SortFields(fs))
  {
    if fs != [] {
      var n := |fs| - 1;
      SortUnique(fs[..n]);
      forall g | g in SortFields(fs[..n]) ensures g.source != fs[n].source {
        assert g in multiset(SortFields(fs[..n]));
      }
      InsertUnique(fs[n], SortFields(fs[..n]));
    }
  }

  /** Each entry's decoded value is the attribute of its member. */
  ghost predicate EntriesRead(fs: seq<Field>, have: seq<Option<nat>>, entries: seq<Element>,
                              r: map<string, Option<Value>>)
    requires |have| == |entries|
  {
    forall k | 0 <= k < |have| ::
      && have[k].Some? && have[k].value < |fs|
      && var f := fs[have[k].value];
         var d := DecodeType(f.ty, entries[k].data);
         d.Success? && f.source in r && r[f.source] == Some(d.value)
  }

  /** Only attributes of members with an entry are set. */
  ghost predicate OthersKept(fs: seq<Field>, have: seq<Option<nat>>, out: map<string, Option<Value>>,
                             r: map<string, Option<Value>>)
    requires Ascending(have, 0, |fs|)
  {
    forall s | (forall k | 0 <= k < |have| :: fs[have[k].value].source != s) ::
      (s in r <==> s in out) && (s in r ==> r[s] == out[s])
  }

  /** The values are the attributes of the members. */
  ghost predicate Placed(fs: seq<Field>, have: seq<Option<nat>>, values: seq<Value>, r: map<string, Option<Value>>)
    requires |have| == |values| && Ascending(have, 0, |fs|)
  {
    forall k | 0 <= k < |have| :: fs[have[k].value].source in r && r[fs[have[k].value].source] == Some(values[k])
  }

  lemma {:induction false} DecodeValuesIs(t: Type, fs: seq<Field>, have: seq<Option<nat>>, entries: seq<Element>,
                                          out: map<string, Option<Value>>, from: nat)
    returns (values: seq<Value>)
    requires t.TStruct? && (forall f | f in fs :: f in t.fields) && UniqueSources(fs)
    requires |have| == |entries| && Ascending(have, from, |fs|) && DecodeValues(t, fs, have, entries, out).Success?
    ensures |values| == |have| && Placed(fs, have, values, DecodeValues(t, fs, have, entries, out).value)
    ensures forall k | 0 <= k < |have| :: DecodeType(fs[have[k].value].ty, entries[k].data) == Success(values[k])
    ensures OthersKept(fs, have, out, DecodeValues(t, fs, have, entries, out).value)
    decreases |have|
  {
    hide DecodeType;
    if have == [] {
      values := [];
    } else {
      var f := fs[have[0].value];
      var v := DecodeType(f.ty, entries[0].data).value;
      var r := DecodeValues(t, fs, have[1..], entries[1..], out[f.source := Some(v)]).value;
      assert r == DecodeValues(t, fs, have, entries, out).value;
      var rest := DecodeValuesIs(t, fs, have[1..], entries[1..], out[f.source := Some(v)], have[0].value + 1);
      hide DecodeValues;
      values := [v] + rest;
      OneKept(fs, have, v, out, r);
      hide OthersKept;
      OnePlaced(fs, have, values, r);
    }
  }

  /** No later entry belongs to the member of the first. */
  lemma LaterDiffer(fs: seq<Field>, have: seq<Option<nat>>)
    requires UniqueSources(fs) && Ascending(have, 0, |fs|) && have != []
    ensures forall k | 0 <= k < |have[1..]| :: fs[have[1..][k].value].source != fs[have[0].value].source
  {
    forall k | 0 <= k < |have[1..]| ensures fs[have[1..][k].value].source != fs[have[0].value].source {
      assert have[1..][k] == have[k + 1] && have[0].value < have[k + 1].value;
    }
  }

  lemma OneKept(fs: seq<Field>, have: seq<Option<nat>>, v: Value, out: map<string, Option<Value>>,
                r: map<string, Option<Value>>)
    requires UniqueSources(fs) && Ascending(have, 0, |fs|) && have != []
    requires OthersKept(fs, have[1..], out[fs[have[0].value].source := Some(v)], r)
    ensures fs[have[0].value].source in r && r[fs[have[0].value].source] == Some(v) && OthersKept(fs, have, out, r)
  {
    LaterDiffer(fs, have);
    hide UniqueSources;
    forall s | forall k | 0 <= k < |have| :: fs[have[k].value].source != s
      ensures (s in r <==> s in out) && (s in r ==> r[s] == out[s])
    {
      assert forall k | 0 <= k < |have[1..]| :: have[1..][k] == have[k + 1];
      assert fs[have[0].value].source != s;
    }
  }

  lemma OnePlaced(fs: seq<Field>, have: seq<Option<nat>>, values: seq<Value>, r: map<string, Option<Value>>)
    requires Ascending(have, 0, |fs|) && |have| == |values| && have != [] && Placed(fs, have[1..], values[1..], r)
    requires fs[have[0].value].source in r && r[fs[have[0].value].source] == Some(values[0])
    ensures Placed(fs, have, values, r)
  {
    assert forall k | 1 <= k < |have| :: have[k] == have[1..][k - 1] && values[k] == values[1..][k - 1];
  }

  /** There is one attribute for each member, and it is `None` exactly when the member has no entry. */
  ghost predicate AbsentWithoutEntry(fs: seq<Field>, m: seq<Option<nat>>, r: map<string, Option<Value>>) {
    && (forall s :: s in r <==> exists j :: 0 <= j < |fs| && fs[j].source == s)
    && forall j | 0 <= j < |fs| :: r[fs[j].source] == None <==> Some(j) !in m
  }

  /**
   An object that decodes has one attribute for each member: the decoded value of the member's entry, or `None`
   exactly when the member has no entry.
   */
  lemma DecodedAttributes(t: Type, entries: seq<Element>)
    requires t.TStruct? && UniqueSources(t.fields) && DecodeFromDict(t, entries).Success?
    ensures var fs := Ordered(t);
            var m := Members(t, fs, entries);
            var v := DecodeFromDict(t, entries).value;
            v.VObj? && EntriesRead(fs, m, entries, v.attrs) && AbsentWithoutEntry(fs, m, v.attrs)
  {
    var fs := Ordered(t);
    var m := Members(t, fs, entries);
    SortUnique(t.fields);
    DecodedFrom(t, entries);
    var start := AbsentAttrs(Missing(fs, m, 0));
    hide DecodeFromDict, DecodeValues, DecodeType, Members, Ordered, AbsentAttrs, OthersKept, AbsentWithoutEntry;
    var values := DecodeValuesIs(t, fs, m, entries, start, 0);
    AttributesAre(fs, m, values, DecodeValues(t, fs, m, entries, start).value);
  }

  lemma AttributesAre(fs: seq<Field>, m: seq<Option<nat>>, values: seq<Value>, r: map<string, Option<Value>>)
    requires UniqueSources(fs) && Ascending(m, 0, |fs|) && |m| == |values|
    requires Placed(fs, m, values, r) && OthersKept(fs, m, AbsentAttrs(Missing(fs, m, 0)), r)
    ensures AbsentWithoutEntry(fs, m, r)
  {
    hide Missing;
    MissingIs(fs, m, 0);
    forall j | 0 <= j < |fs| ensures fs[j].source in r && (r[fs[j].source] == None <==> Some(j) !in m) {
      MemberIn(fs, m, j);
    }
  }

  /** A member has an entry, or its source is that of no entry's member. */
  lemma MemberIn(fs: seq<Field>, m: seq<Option<nat>>, j: nat)
    requires UniqueSources(fs) && Ascending(m, 0, |fs|) && j < |fs|
    ensures Some(j) in m <==> exists k :: 0 <= k < |m| && fs[m[k].value].source == fs[j].source
  {
    if k :| 0 <= k < |m| && fs[m[k].value].source == fs[j].source { assert m[k] == Some(j); }
    if k :| 0 <= k < |m| && m[k] == Some(j) { assert fs[m[k].value].source == fs[j].source; }
  }

  lemma DecodedFrom(t: Type, entries: seq<Element>)
    requires t.TStruct? && DecodeFromDict(t, entries).Success?
    ensures var fs := Ordered(t);
            var m := Members(t, fs, entries);
            var r := DecodeValues(t, fs, m, entries, AbsentAttrs(Missing(fs, m, 0)));
            Ascending(m, 0, |fs|) && r.Success? && DecodeFromDict(t, entries).value == VObj(r.value)
  {
    var fs := Ordered(t);
    var m := Members(t, fs, entries);
    MatchEntriesValue(t, fs, entries, []);
    assert [] + m == m;
    AlignIff(fs, m, 0);
    hide DecodeValues, Members, Ordered, Align, Missing, MatchEntries, Ascending;
  }

  lemma {:induction false} MissingIs(fs: seq<Field>, have: seq<Option<nat>>, i: nat)
    requires i <= |fs|
    ensures forall s ::
            s in Missing(fs, have, i) <==> exists j :: i <= j < |fs| && Some(j) !in have && fs[j].source == s
    decreases |fs| - i
  {
    if i < |fs| { MissingIs(fs, have, i + 1); }
  }

  // ---------------------------------------------------------------------- encoded attributes

  /** The elements of the members that are written, one after the other. */
  function Written(t: Type, fs: seq<Field>, attrs: map<string, Option<Value>>): Result<seq<Element>>
    requires t.TStruct? && forall f | f in fs :: f in t.fields
    decreases fs
  {
    if fs == [] then Success([])
    else
      var f := fs[0];
      var tag :- MakeTag(t.meta, f.tag);
      if f.source !in attrs then Failure(AttributeError)
      else
        var v := attrs[f.source];
        if f.optional && (v == None || v == Some(VSeq([]))) then Written(t, fs[1..], attrs)
        else
          var d :- if v == None then Success(Null) else EncodeType(f.ty, v.value);
          var rest :- Written(t, fs[1..], attrs);
          Success([Element(tag, d)] + rest)
  }

  lemma {:induction false} EncodesWritten(t: Type, fs: seq<Field>, attrs: map<string, Option<Value>>,
                                          before: seq<Element>)
    requires t.TStruct? && forall f | f in fs :: f in t.fields
    ensures EncodeToDict(t, fs, attrs, DictOf(before)) ==
            (var items :- Written(t, fs, attrs); Success(DictOf(before + items)))
  {
    hide EncodeType, MakeTag, DictOf;
    if fs == [] {
      assert before + [] == before;
    } else {
      var f := fs[0];
      EncodesWritten(t, fs[1..], attrs, before);
      if MakeTag(t.meta, f.tag).Success? && f.source in attrs && !Skipped(f, attrs[f.source]) {
        var d := EncodeMember(t, f, attrs[f.source]);
        if d.Success? {
          var e := Element(MakeTag(t.meta, f.tag).value, d.value);
          EncodesWritten(t, fs[1..], attrs, before + [e]);
          DictOfLast(before, e);
          if Written(t, fs[1..], attrs).Success? { Regroup(before, [e], Written(t, fs[1..], attrs).value); }
        }
      }
    }
  }

  lemma DictOfLast(before: seq<Element>, e: Element)
    ensures DictOf(before + [e]) == DictSet(DictOf(before), e)
  {
    assert (before + [e])[..|before|] == before;
  }

  /**
   A structure encodes as the dictionary of its written members in their order: of two members with one tag the
   second is written, in the place of the first.
   */
  lemma StructEncodesAs(t: Type, attrs: map<string, Option<Value>>)
    requires t.TStruct?
    ensures EncodeType(t, VObj(attrs)) ==
            (var items :- Written(t, Ordered(t), attrs); Success(Container(Struct, DictOf(items))))
  {
    EncodesWritten(t, Ordered(t), attrs, []);
    assert forall items: seq<Element> :: [] + items == items;
    hide Written, EncodeToDict, Ordered;
  }
}
