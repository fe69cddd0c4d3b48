/**
 Access control: the privileges granted to a subject (matter/interaction_model/acl.py), and the access
 control cluster's list, written and read per fabric (matter/interaction_model/root_node.py).
 */
module Acl {
  import opened Wrappers

  datatype Privilege = View | Operate | Manage | Administer

  datatype AuthenticationMode = NoAuth | PASE | CASE | Group

  datatype Target = Target(cluster: Option<int>, endpoint: Option<int>, deviceType: Option<int>)

  datatype Entry = Entry(fabricIndex: int, privilege: Privilege, mode: AuthenticationMode, subjects: seq<int>,
                         targets: seq<Target>)

  datatype Cat = Cat(id: int, version: int)

  /** The subject of a request. */
  datatype Subject = Subject(isCommissioning: bool, mode: AuthenticationMode, nodeId: int, cats: seq<Cat>,
                             fabricIndex: int)

  /** What the request is for. */
  datatype Object = Object(endpoint: int, cluster: int, deviceTypes: set<int>)

  // ---------------------------------------------------------------------- the declarative meaning

  /** A privilege and every privilege below it. */
  function Closure(p: Privilege): set<Privilege> {
    match p
    case View => {View}
    case Operate => {Operate, View}
    case Manage => {Manage, Operate, View}
    case Administer => {Administer, Manage, Operate, View}
  }

  const CAT_MIN := 0xFFFF_FFFD_0000_0000
  const CAT_MAX := 0xFFFF_FFFD_FFFF_FFFF

  predicate CatMatches(aclSubject: int, cat: Cat) {
    CAT_MIN <= aclSubject <= CAT_MAX && cat.id == aclSubject / 0x1_0000 % 0x1_0000
      && cat.version <= aclSubject % 0x1_0000
  }

  predicate SubjectMatches(aclSubject: int, s: Subject) {
    aclSubject == s.nodeId || exists i :: 0 <= i < |s.cats| && CatMatches(aclSubject, s.cats[i])
  }

  predicate WellFormed(t: Target) {
    (t.cluster.Some? || t.endpoint.Some? || t.deviceType.Some?) && (t.endpoint.None? || t.deviceType.None?)
  }

  predicate TargetMatches(t: Target, o: Object) {
    && (t.cluster.Some? ==> t.cluster.value == o.cluster)
    && (t.endpoint.Some? ==> t.endpoint.value == o.endpoint)
    && (t.deviceType.Some? ==> t.deviceType.value in o.deviceTypes)
  }

  /** The entry speaks about the subject, whatever the target. */
  predicate Concerns(e: Entry, s: Subject) {
    && e.fabricIndex != 0 && e.fabricIndex == s.fabricIndex && e.mode == s.mode
    && (e.subjects == [] || exists i :: 0 <= i < |e.subjects| && SubjectMatches(e.subjects[i], s))
  }

  predicate Covers(e: Entry, o: Object) {
    e.targets == [] || exists i :: 0 <= i < |e.targets| && TargetMatches(e.targets[i], o)
  }

  /** Some target is malformed and no earlier one matches. */
  predicate Malformed(e: Entry, o: Object) {
    exists i :: 0 <= i < |e.targets| && !WellFormed(e.targets[i])
      && forall j :: 0 <= j < i ==> !TargetMatches(e.targets[j], o)
  }

  function Commissioner(s: Subject): set<Privilege> {
    if s.mode == PASE && s.isCommissioning then Closure(Administer) else {}
  }

  /** The union, over all matching entries and the commissioning grant, of downward closures. */
  ghost predicate Grants(acl: seq<Entry>, s: Subject, o: Object, p: Privilege) {
    p in Commissioner(s) || exists e :: e in acl && Concerns(e, s) && Covers(e, o) && p in Closure(e.privilege)
  }

  // ---------------------------------------------------------------------- the scan

  /** What one entry adds, or the failed assertion. */
  function Contribution(e: Entry, s: Subject, o: Object): Result<set<Privilege>> {
    if !Concerns(e, s) then Success({})
    else if Malformed(e, o) then Failure(AssertionError)
    else if Covers(e, o) then Success(Closure(e.privilege))
    else Success({})
  }

  function Scan(acl: seq<Entry>, s: Subject, o: Object, granted: set<Privilege>): Result<set<Privilege>> {
    if acl == [] || Administer in granted then Success(granted)
    else
      var c :- Contribution(acl[0], s, o);
      Scan(acl[1..], s, o, granted + c)
  }

  method AddGrantedPrivilege(granted: set<Privilege>, privilege: Privilege) returns (r: set<Privilege>)
    ensures r == granted + Closure(privilege)
  {
    r := granted + {privilege};
    if privilege == Operate {
      r := r + {View};
    } else if privilege == Manage {
      r := r + {Operate};
      r := r + {View};
    } else if privilege == Administer {
      r := r + {Manage};
      r := r + {Operate};
      r := r + {View};
    }
  }

  method MatchSubject(e: Entry, s: Subject) returns (matched: bool)
    ensures matched <==> exists i :: 0 <= i < |e.subjects| && SubjectMatches(e.subjects[i], s)
  {
    matched := false;
    for i := 0 to |e.subjects|
      invariant !matched && forall j :: 0 <= j < i ==> !SubjectMatches(e.subjects[j], s)
    {
      var aclSubject := e.subjects[i];
      if aclSubject == s.nodeId {
        assert SubjectMatches(e.subjects[i], s);
        matched := true;
        break;
      }
      if CAT_MIN <= aclSubject <= CAT_MAX {
        var id, version := aclSubject / 0x1_0000 % 0x1_0000, aclSubject % 0x1_0000;
        for k := 0 to |s.cats|
          invariant !matched && forall j :: 0 <= j < k ==> !CatMatches(aclSubject, s.cats[j])
        {
          if s.cats[k].id == id && version >= s.cats[k].version {
            assert CatMatches(aclSubject, s.cats[k]);
            matched := true;
            break;
          }
        }
      }
      if matched {
        assert SubjectMatches(e.subjects[i], s);
        break;
      }
    }
  }

  method MatchTarget(e: Entry, o: Object) returns (r: Result<bool>)
    ensures r == if Malformed(e, o) then Failure(AssertionError)
                 else Success(exists i :: 0 <= i < |e.targets| && TargetMatches(e.targets[i], o))
  {
    for i := 0 to |e.targets|
      invariant forall j :: 0 <= j < i ==> WellFormed(e.targets[j]) && !TargetMatches(e.targets[j], o)
    {
      var target := e.targets[i];
      if target.cluster.None? && target.endpoint.None? && target.deviceType.None? {
        assert !WellFormed(e.targets[i]);
        return Failure(AssertionError);
      }
      if target.endpoint.Some? && target.deviceType.Some? {
        assert !WellFormed(e.targets[i]);
        return Failure(AssertionError);
      }
      if target.cluster.Some? && target.cluster.value != o.cluster {
        continue;
      }
      if target.endpoint.Some? && target.endpoint.value != o.endpoint {
        continue;
      }
      if target.deviceType.Some? && target.deviceType.value !in o.deviceTypes {
        continue;
      }
      assert TargetMatches(e.targets[i], o);
      return Success(true);
    }
    return Success(false);
  }

  method GetGrantedPrivileges(acl: seq<Entry>, s: Subject, o: Object) returns (r: Result<set<Privilege>>)
    ensures r == Scan(acl, s, o, Commissioner(s))
  {
    var granted: set<Privilege> := {};
    if s.mode == PASE && s.isCommissioning {
      granted := AddGrantedPrivilege(granted, Administer);
    }
    assert acl[0..] == acl && granted == Commissioner(s);
    for i := 0 to |acl|
      invariant Scan(acl, s, o, Commissioner(s)) == Scan(acl[i..], s, o, granted)
    {
      var e := acl[i];
      assert acl[i..][0] == e && acl[i..][1..] == acl[i + 1..];
      if Administer in granted {
        break;
      }
      assert granted + {} == granted;
      if e.fabricIndex == 0 {
        continue;
      }
      if e.fabricIndex != s.fabricIndex {
        continue;
      }
      if e.mode != s.mode {
        continue;
      }
      if |e.subjects| != 0 {
        var matchedSubject := MatchSubject(e, s);
        if !matchedSubject {
          continue;
        }
      }
      if |e.targets| != 0 {
        var matchedTarget :- MatchTarget(e, o);
        if !matchedTarget {
          continue;
        }
      }
      granted := AddGrantedPrivilege(granted, e.privilege);
    }
    return Success(granted);
  }

  // ---------------------------------------------------------------------- the scan means the union

  lemma ClosureOfAdminister(p: Privilege)
    ensures p in Closure(Administer)
  {
  }

  /** Sets of privileges that stand for "these and all below". */
  predicate DownwardClosed(g: set<Privilege>) {
    forall p | p in g :: Closure(p) <= g
  }

  lemma ClosureClosed(p: Privilege, g: set<Privilege>)
    requires DownwardClosed(g)
    ensures DownwardClosed(g + Closure(p))
  {
  }

  ghost predicate GrantedBy(acl: seq<Entry>, s: Subject, o: Object, p: Privilege) {
    exists e :: e in acl && Concerns(e, s) && Covers(e, o) && p in Closure(e.privilege)
  }

  lemma GrantedByHead(acl: seq<Entry>, s: Subject, o: Object, p: Privilege)
    requires acl != []
    ensures GrantedBy(acl, s, o, p) <==>
            (Concerns(acl[0], s) && Covers(acl[0], o) && p in Closure(acl[0].privilege)) || GrantedBy(acl[1..], s, o, p)
  {
    hide Concerns, Covers, Closure;
  }

  lemma {:induction false} ScanIs(acl: seq<Entry>, s: Subject, o: Object, granted: set<Privilege>, p: Privilege)
    requires DownwardClosed(granted) && Scan(acl, s, o, granted).Success?
    ensures p in Scan(acl, s, o, granted).value <==> p in granted || GrantedBy(acl, s, o, p)
    ensures DownwardClosed(Scan(acl, s, o, granted).value)
  {
    if Administer in granted {
      assert Closure(Administer) <= granted;
      ClosureOfAdminister(p);
    } else if acl != [] {
      var c := Contribution(acl[0], s, o).value;
      GrantedByHead(acl, s, o, p);
      ClosureClosed(acl[0].privilege, granted);
      assert granted + {} == granted;
      hide Concerns, Covers, Malformed, Closure, GrantedBy;
      ScanIs(acl[1..], s, o, granted + c, p);
    }
  }

  /** Stopping at Administer never changes the result: it is the union of the closures. */
  lemma GrantedIsUnion(acl: seq<Entry>, s: Subject, o: Object)
    requires Scan(acl, s, o, Commissioner(s)).Success?
    ensures forall p :: p in Scan(acl, s, o, Commissioner(s)).value <==> Grants(acl, s, o, p)
    ensures DownwardClosed(Scan(acl, s, o, Commissioner(s)).value)
  {
    forall p ensures p in Scan(acl, s, o, Commissioner(s)).value <==> Grants(acl, s, o, p) {
      ScanIs(acl, s, o, Commissioner(s), p);
    }
    ScanIs(acl, s, o, Commissioner(s), View);
  }

  /** The scan reaches entry k before Administer is granted, and fails there. */
  ghost predicate FailsAt(acl: seq<Entry>, s: Subject, o: Object, granted: set<Privilege>, k: nat) {
    && k < |acl| && Concerns(acl[k], s) && Malformed(acl[k], o)
    && Administer !in granted && !GrantedBy(acl[..k], s, o, Administer)
  }

  lemma FailsLater(acl: seq<Entry>, s: Subject, o: Object, granted: set<Privilege>, k: nat)
    requires acl != [] && Administer !in granted && Contribution(acl[0], s, o).Success?
    ensures FailsAt(acl, s, o, granted, k + 1) <==>
            FailsAt(acl[1..], s, o, granted + Contribution(acl[0], s, o).value, k)
    ensures !FailsAt(acl, s, o, granted, 0)
  {
    if k + 1 <= |acl| {
      GrantedByHead(acl[..k + 1], s, o, Administer);
      assert acl[..k + 1][1..] == acl[1..][..k];
    }
    hide Concerns, Covers, Malformed, Closure, GrantedBy;
  }

  /** The scan fails exactly at a malformed target of a concerning entry that it reaches. */
  lemma {:induction false} ScanFailsIff(acl: seq<Entry>, s: Subject, o: Object, granted: set<Privilege>)
    ensures Scan(acl, s, o, granted).Failure? <==> exists k: nat :: FailsAt(acl, s, o, granted, k)
    ensures Scan(acl, s, o, granted).Failure? ==> Scan(acl, s, o, granted) == Failure(AssertionError)
  {
    hide Concerns, Covers, Malformed, Closure;
    if acl != [] && Administer !in granted {
      if Contribution(acl[0], s, o).Failure? {
        assert FailsAt(acl, s, o, granted, 0);
      } else {
        var next := granted + Contribution(acl[0], s, o).value;
        ScanFailsIff(acl[1..], s, o, next);
        forall k: nat ensures FailsAt(acl, s, o, granted, k + 1) <==> FailsAt(acl[1..], s, o, next, k) {
          FailsLater(acl, s, o, granted, k);
        }
        FailsLater(acl, s, o, granted, 0);
        hide FailsAt;
        if k: nat :| FailsAt(acl, s, o, granted, k) { assert FailsAt(acl[1..], s, o, next, k - 1); }
      }
    }
  }

  /** A list without malformed targets never fails. */
  lemma WellFormedSucceeds(acl: seq<Entry>, s: Subject, o: Object)
    requires forall e, i | e in acl && 0 <= i < |e.targets| :: WellFormed(e.targets[i])
    ensures Scan(acl, s, o, Commissioner(s)).Success?
  {
    ScanFailsIff(acl, s, o, Commissioner(s));
    hide Scan, Concerns, GrantedBy, WellFormed;
  }

  lemma GrantsMore(a: seq<Entry>, b: seq<Entry>, s: Subject, o: Object, p: Privilege)
    requires (forall e | e in a :: e in b) && Grants(a, s, o, p)
    ensures Grants(b, s, o, p)
  {
    hide Concerns, Covers, Closure, Commissioner;
  }

  /** Only which entries there are matters, not their order; more entries never grant less. */
  lemma GrantedMonotone(a: seq<Entry>, b: seq<Entry>, s: Subject, o: Object)
    requires forall e | e in a :: e in b
    requires Scan(a, s, o, Commissioner(s)).Success? && Scan(b, s, o, Commissioner(s)).Success?
    ensures Scan(a, s, o, Commissioner(s)).value <= Scan(b, s, o, Commissioner(s)).value
    ensures (forall e | e in b :: e in a) ==> Scan(a, s, o, Commissioner(s)) == Scan(b, s, o, Commissioner(s))
  {
    GrantedIsUnion(a, s, o);
    GrantedIsUnion(b, s, o);
    forall p | Grants(a, s, o, p) ensures Grants(b, s, o, p) {
      GrantsMore(a, b, s, o, p);
    }
    hide Scan, Grants, Commissioner;
    var x, y := Scan(a, s, o, Commissioner(s)).value, Scan(b, s, o, Commissioner(s)).value;
    assert x <= y;
    if forall e | e in b :: e in a {
      forall p | p in y ensures p in x {
        GrantsMore(b, a, s, o, p);
      }
      assert x == y;
    }
  }

  // ---------------------------------------------------------------------- one fabric's entries

  function Without(acl: seq<Entry>, fabric: int): seq<Entry> {
    if acl == [] then [] else (if acl[0].fabricIndex == fabric then [] else [acl[0]]) + Without(acl[1..], fabric)
  }

  function Only(acl: seq<Entry>, fabric: int): seq<Entry> {
    if acl == [] then [] else (if acl[0].fabricIndex == fabric then [acl[0]] else []) + Only(acl[1..], fabric)
  }

  /** The scan sees only the entries of the subject's own fabric, even when it fails. */
  lemma {:induction false} ScanOwnFabric(acl: seq<Entry>, s: Subject, o: Object, granted: set<Privilege>)
    ensures Scan(acl, s, o, granted) == Scan(Only(acl, s.fabricIndex), s, o, granted)
  {
    hide Covers, Malformed, Closure;
    if acl != [] {
      var rest := Only(acl[1..], s.fabricIndex);
      if acl[0].fabricIndex == s.fabricIndex {
        assert ([acl[0]] + rest)[1..] == rest;
        if Contribution(acl[0], s, o).Success? {
          ScanOwnFabric(acl[1..], s, o, granted + Contribution(acl[0], s, o).value);
        }
      } else {
        assert granted + {} == granted && [] + rest == rest;
        ScanOwnFabric(acl[1..], s, o, granted);
      }
    }
  }

  lemma {:induction false} OnlyConcat(a: seq<Entry>, b: seq<Entry>, fabric: int)
    ensures Only(a + b, fabric) == Only(a, fabric) + Only(b, fabric)
  {
    if a == [] {
      assert a + b == b;
    } else {
      OnlyConcat(a[1..], b, fabric);
      assert (a + b)[1..] == a[1..] + b;
      var head := if a[0].fabricIndex == fabric then [a[0]] else [];
      hide Only;
      assert head + (Only(a[1..], fabric) + Only(b, fabric)) == head + Only(a[1..], fabric) + Only(b, fabric);
    }
  }

  lemma {:induction false} OnlyWithout(acl: seq<Entry>, other: int, fabric: int)
    ensures Only(Without(acl, other), fabric) == if fabric == other then [] else Only(acl, fabric)
  {
    if acl != [] {
      OnlyWithout(acl[1..], other, fabric);
      if acl[0].fabricIndex != other {
        assert ([acl[0]] + Without(acl[1..], other))[1..] == Without(acl[1..], other);
      } else {
        assert [] + Without(acl[1..], other) == Without(acl[1..], other);
        assert [] + Only(acl[1..], fabric) == Only(acl[1..], fabric);
      }
    }
  }

  lemma {:induction false} OnlyOf(entries: seq<Entry>, writer: int, fabric: int)
    requires forall e | e in entries :: e.fabricIndex == writer
    ensures Only(entries, fabric) == if fabric == writer then entries else []
  {
    if entries != [] {
      OnlyOf(entries[1..], writer, fabric);
      assert [entries[0]] + entries[1..] == entries;
    }
  }

  // ---------------------------------------------------------------------- writing the list

  /** An entry as written over the wire; `None` is null. */
  datatype EntryData = EntryData(privilege: int, authMode: int, subjects: Option<seq<int>>,
                                 targets: Option<seq<TargetData>>)

  datatype TargetData = TargetData(cluster: Option<int>, endpoint: Option<int>, deviceType: Option<int>)

  function PrivilegeOf(value: int): Option<Privilege> {
    if value == 5 then Some(Administer) else if value == 4 then Some(Manage)
    else if value == 3 then Some(Operate) else if value == 1 then Some(View) else None
  }

  function ModeOf(value: int): Option<AuthenticationMode> {
    if value == 1 then Some(PASE) else if value == 2 then Some(CASE) else if value == 3 then Some(Group) else None
  }

  /** `x or None`: null and zero are both absent. */
  function OrNone(x: Option<int>): Option<int> {
    if x == Some(0) then None else x
  }

  function TargetOf(t: TargetData): Target {
    Target(OrNone(t.cluster), OrNone(t.endpoint), OrNone(t.deviceType))
  }

  function EntryOf(e: EntryData, fabric: int): Option<Entry> {
    if PrivilegeOf(e.privilege).None? || ModeOf(e.authMode).None? then None
    else
      var ts := e.targets.GetOr([]);
      Some(Entry(fabric, PrivilegeOf(e.privilege).value, ModeOf(e.authMode).value, e.subjects.GetOr([]),
                 seq(|ts|, i requires 0 <= i < |ts| => TargetOf(ts[i]))))
  }

  predicate Acceptable(data: seq<EntryData>) {
    forall i :: 0 <= i < |data| ==> EntryOf(data[i], 0).Some?
  }

  function EntriesOf(data: seq<EntryData>, fabric: int): (r: seq<Entry>)
    requires Acceptable(data)
    ensures |r| == |data| && forall e | e in r :: e.fabricIndex == fabric
  {
    seq(|data|, i requires 0 <= i < |data| => EntryOf(data[i], fabric).value)
  }

  /** What is read back for an entry: an absent id and an empty list are null. */
  function Shown(e: Entry): Option<EntryData> {
    if e.mode == NoAuth then None
    else Some(EntryData(match e.privilege case Administer => 5 case Manage => 4 case Operate => 3 case View => 1,
                        match e.mode case PASE => 1 case CASE => 2 case _ => 3,
                        if e.subjects == [] then None else Some(e.subjects),
                        if e.targets == [] then None
                        else Some(seq(|e.targets|, i requires 0 <= i < |e.targets| =>
                                    TargetData(e.targets[i].cluster, e.targets[i].endpoint, e.targets[i].deviceType)))))
  }

  function ShownAll(acl: seq<Entry>): seq<EntryData> {
    if acl == [] then []
    else (if Shown(acl[0]).Some? then [Shown(acl[0]).value] else []) + ShownAll(acl[1..])
  }

  class AccessControl {
    var acl: seq<Entry>

    constructor ()
      ensures acl == []
    {
      acl := [];
    }

    /** The fabric's own entries, as data. */
    method ReadAcl(fabric: int) returns (out: seq<EntryData>)
      ensures out == ShownAll(Only(acl, fabric))
    {
      out := [];
      var own := Only(acl, fabric);
      for i := 0 to |own|
        invariant ShownAll(own) == out + ShownAll(own[i..])
      {
        assert own[i..][1..] == own[i + 1..];
        ghost var before := out;
        if Shown(own[i]).Some? {
          out := out + [Shown(own[i]).value];
        }
      }
    }

    static method Convert(data: seq<EntryData>, fabric: int) returns (r: Option<seq<Entry>>)
      ensures r == if Acceptable(data) then Some(EntriesOf(data, fabric)) else None
    {
      var entries: seq<Entry> := [];
      for i := 0 to |data|
        invariant forall j :: 0 <= j < i ==> EntryOf(data[j], 0).Some?
        invariant |entries| == i && forall j :: 0 <= j < i ==> Some(entries[j]) == EntryOf(data[j], fabric)
      {
        var e := EntryOf(data[i], fabric);
        if e.None? {
          assert EntryOf(data[i], 0).None?;
          return None;
        }
        entries := entries + [e.value];
      }
      assert entries == EntriesOf(data, fabric);
      return Some(entries);
    }

    /** True for success, false for a constraint error, which changes nothing. */
    method ReplaceAcl(data: seq<EntryData>, fabric: int) returns (ok: bool)
      modifies this
      ensures ok == Acceptable(data)
      ensures acl == if ok then Without(old(acl), fabric) + EntriesOf(data, fabric) else old(acl)
    {
      var entries := Convert(data, fabric);
      if entries.None? {
        return false;
      }
      acl := Without(acl, fabric) + entries.value;
      return true;
    }

    method AddAcl(data: seq<EntryData>, fabric: int) returns (ok: bool)
      modifies this
      ensures ok == Acceptable(data)
      ensures acl == if ok then old(acl) + EntriesOf(data, fabric) else old(acl)
    {
      var entries := Convert(data, fabric);
      if entries.None? {
        return false;
      }
      acl := acl + entries.value;
      return true;
    }
  }

  /** A write by one fabric leaves what any subject of another fabric is granted, or fails with, as it was. */
  lemma OtherFabricsUnaffected(acl: seq<Entry>, data: seq<EntryData>, writer: int, s: Subject, o: Object)
    requires Acceptable(data) && s.fabricIndex != writer
    ensures var c := Commissioner(s);
            && Scan(Without(acl, writer) + EntriesOf(data, writer), s, o, c) == Scan(acl, s, o, c)
            && Scan(acl + EntriesOf(data, writer), s, o, c) == Scan(acl, s, o, c)
  {
    var entries := EntriesOf(data, writer);
    var c := Commissioner(s);
    hide Scan, Only, Without, EntriesOf, Commissioner;
    ScanOwnFabric(acl, s, o, c);
    ScanOwnFabric(Without(acl, writer) + entries, s, o, c);
    ScanOwnFabric(acl + entries, s, o, c);
    OnlyConcat(Without(acl, writer), entries, s.fabricIndex);
    OnlyConcat(acl, entries, s.fabricIndex);
    OnlyWithout(acl, writer, s.fabricIndex);
    OnlyOf(entries, writer, s.fabricIndex);
    assert Only(acl, s.fabricIndex) + [] == Only(acl, s.fabricIndex);
  }

  /** Nothing is granted to a fabric without entries, outside commissioning. */
  lemma NoEntriesNoGrant(acl: seq<Entry>, s: Subject, o: Object)
    requires Commissioner(s) == {} && forall e | e in acl :: e.fabricIndex != s.fabricIndex
    ensures Scan(acl, s, o, {}) == Success({})
  {
    ScanOwnFabric(acl, s, o, {});
    OnlyNone(acl, s.fabricIndex);
  }

  lemma {:induction false} OnlyNone(acl: seq<Entry>, fabric: int)
    requires forall e | e in acl :: e.fabricIndex != fabric
    ensures Only(acl, fabric) == []
  {
    if acl != [] { OnlyNone(acl[1..], fabric); }
  }

  /** No list is empty and no id is zero. */
  predicate Plain(e: EntryData) {
    && e.subjects != Some([]) && e.targets != Some([])
    && (e.targets.Some? ==> forall i :: 0 <= i < |e.targets.value| ==> PlainTarget(e.targets.value[i]))
  }

  predicate PlainTarget(t: TargetData) {
    t.cluster != Some(0) && t.endpoint != Some(0) && t.deviceType != Some(0)
  }

  /** An entry is read back as written exactly when it has no empty list and no zero id. */
  lemma ShownAsWrittenIff(e: EntryData, fabric: int)
    requires EntryOf(e, fabric).Some?
    ensures Shown(EntryOf(e, fabric).value).Some?
    ensures Shown(EntryOf(e, fabric).value).value == e <==> Plain(e)
  {
    var w := EntryOf(e, fabric).value;
    var shown := Shown(w).value;
    if e.targets.Some? && e.targets.value != [] {
      forall i | 0 <= i < |e.targets.value|
        ensures shown.targets.value[i] == e.targets.value[i] <==> PlainTarget(e.targets.value[i])
      {
      }
      if Plain(e) { assert shown.targets.value == e.targets.value; }
    }
  }

  lemma {:induction false} ShownAllOf(entries: seq<Entry>)
    requires forall i :: 0 <= i < |entries| ==> Shown(entries[i]).Some?
    ensures ShownAll(entries) == seq(|entries|, i requires 0 <= i < |entries| => Shown(entries[i]).value)
  {
    hide Shown;
    if entries != [] {
      ShownAllOf(entries[1..]);
    }
  }

  /** Reading after replacing gives back what was written exactly when every entry is plain. */
  lemma ReadAfterReplaceIff(acl: seq<Entry>, data: seq<EntryData>, fabric: int)
    requires Acceptable(data)
    ensures ShownAll(Only(Without(acl, fabric) + EntriesOf(data, fabric), fabric)) == data
            <==> forall i :: 0 <= i < |data| ==> Plain(data[i])
  {
    var entries := EntriesOf(data, fabric);
    OnlyConcat(Without(acl, fabric), entries, fabric);
    OnlyWithout(acl, fabric, fabric);
    OnlyOf(entries, fabric, fabric);
    assert [] + entries == entries;
    forall i | 0 <= i < |data|
      ensures entries[i] == EntryOf(data[i], fabric).value && Shown(entries[i]).Some?
              && (Shown(entries[i]).value == data[i] <==> Plain(data[i]))
    {
      ShownAsWrittenIff(data[i], fabric);
    }
    hide Shown, EntryOf, Plain, Only, Without, EntriesOf, Acceptable;
    ShownAllOf(entries);
  }

  /** Endpoint 0 of a written target is stored as no endpoint and reads back as null. */
  lemma ZeroEndpointLost(fabric: int)
    ensures var t := TargetData(None, Some(0), None);
            var data := [EntryData(5, 2, None, Some([t]))];
            Acceptable(data)
            && ShownAll(Only(Without([], fabric) + EntriesOf(data, fabric), fabric))
               == [EntryData(5, 2, None, Some([TargetData(None, None, None)]))] != data
  {
    var t := TargetData(None, Some(0), None);
    var e := EntryData(5, 2, None, Some([t]));
    var w := EntryOf(e, fabric).value;
    assert EntriesOf([e], fabric) == [w] && Only([w], fabric) == [w] && [w][1..] == [];
    assert ShownAll([w]) == [Shown(w).value] + ShownAll([]);
    assert Shown(w).value.targets.value == [TargetData(None, None, None)];
  }

  // ---------------------------------------------------------------------- lists that cannot be scanned

  /** The written target names something, and not both kinds of endpoint; zero names nothing. */
  predicate Scannable(t: TargetData) {
    && (t.cluster.GetOr(0) != 0 || t.endpoint.GetOr(0) != 0 || t.deviceType.GetOr(0) != 0)
    && (t.endpoint.GetOr(0) == 0 || t.deviceType.GetOr(0) == 0)
  }

  lemma StoredTargetWellFormedIff(t: TargetData)
    ensures WellFormed(TargetOf(t)) <==> Scannable(t)
  {
  }

  predicate WrittenMatches(t: TargetData, o: Object) {
    && (t.cluster.GetOr(0) != 0 ==> t.cluster.value == o.cluster)
    && (t.endpoint.GetOr(0) != 0 ==> t.endpoint.value == o.endpoint)
    && (t.deviceType.GetOr(0) != 0 ==> t.deviceType.value in o.deviceTypes)
  }

  predicate WrittenConcerns(e: EntryData, s: Subject) {
    var subjects := e.subjects.GetOr([]);
    && ModeOf(e.authMode) == Some(s.mode)
    && (subjects == [] || exists i :: 0 <= i < |subjects| && SubjectMatches(subjects[i], s))
  }

  /** A scan of the written entry reaches a target that cannot be scanned. */
  predicate WrittenFails(e: EntryData, s: Subject, o: Object) {
    var ts := e.targets.GetOr([]);
    && WrittenConcerns(e, s)
    && exists i :: 0 <= i < |ts| && !Scannable(ts[i]) && forall j :: 0 <= j < i ==> !WrittenMatches(ts[j], o)
  }

  predicate WrittenAdministers(e: EntryData, s: Subject, o: Object) {
    var ts := e.targets.GetOr([]);
    && e.privilege == 5 && WrittenConcerns(e, s)
    && (ts == [] || exists i :: 0 <= i < |ts| && WrittenMatches(ts[i], o))
  }

  /** Some written entry cannot be scanned, and none before it ends the scan. */
  predicate Breaks(data: seq<EntryData>, s: Subject, o: Object) {
    exists k :: 0 <= k < |data| && WrittenFails(data[k], s, o)
      && forall i :: 0 <= i < k ==> !WrittenAdministers(data[i], s, o)
  }

  lemma WrittenIs(e: EntryData, fabric: int, s: Subject, o: Object)
    requires EntryOf(e, fabric).Some? && s.fabricIndex == fabric
    ensures var w := EntryOf(e, fabric).value;
            && (Concerns(w, s) && Malformed(w, o) <==> fabric != 0 && WrittenFails(e, s, o))
            && (Concerns(w, s) && Covers(w, o) && Administer in Closure(w.privilege) <==>
                fabric != 0 && WrittenAdministers(e, s, o))
  {
    var w := EntryOf(e, fabric).value;
    var ts := e.targets.GetOr([]);
    assert Concerns(w, s) <==> fabric != 0 && WrittenConcerns(e, s);
    forall i | 0 <= i < |ts|
      ensures (WellFormed(w.targets[i]) <==> Scannable(ts[i]))
              && (TargetMatches(w.targets[i], o) <==> WrittenMatches(ts[i], o))
    {
      StoredTargetWellFormedIff(ts[i]);
    }
    hide WellFormed, Scannable, TargetMatches, WrittenMatches, TargetOf, SubjectMatches, Concerns, WrittenConcerns;
  }

  lemma WrittenScanFailsIff(data: seq<EntryData>, fabric: int, s: Subject, o: Object, granted: set<Privilege>)
    requires Acceptable(data) && s.fabricIndex == fabric && Administer !in granted
    ensures Scan(EntriesOf(data, fabric), s, o, granted).Failure? <==> fabric != 0 && Breaks(data, s, o)
  {
    var entries := EntriesOf(data, fabric);
    ScanFailsIff(entries, s, o, granted);
    forall i | 0 <= i < |data|
      ensures entries[i] == EntryOf(data[i], fabric).value
      ensures Concerns(entries[i], s) && Malformed(entries[i], o) <==> fabric != 0 && WrittenFails(data[i], s, o)
      ensures Concerns(entries[i], s) && Covers(entries[i], o) && Administer in Closure(entries[i].privilege)
              <==> fabric != 0 && WrittenAdministers(data[i], s, o)
    {
      WrittenIs(data[i], fabric, s, o);
    }
    hide Scan, EntryOf, Concerns, Malformed, Covers, Closure, WrittenFails, WrittenAdministers;
    forall k: nat | k < |data|
      ensures FailsAt(entries, s, o, granted, k) <==>
              fabric != 0 && WrittenFails(data[k], s, o)
                && forall i :: 0 <= i < k ==> !WrittenAdministers(data[i], s, o)
    {
      assert forall i | 0 <= i < k :: entries[..k][i] == entries[i];
    }
  }

  lemma {:induction false} ScanConcat(a: seq<Entry>, b: seq<Entry>, s: Subject, o: Object, granted: set<Privilege>)
    ensures Scan(a + b, s, o, granted) == (var g :- Scan(a, s, o, granted); Scan(b, s, o, g))
  {
    hide Contribution;
    if a == [] {
      assert a + b == b;
    } else if Administer !in granted && Contribution(a[0], s, o).Success? {
      assert (a + b)[1..] == a[1..] + b;
      ScanConcat(a[1..], b, s, o, granted + Contribution(a[0], s, o).value);
    }
  }

  /** Nobody is locked out while commissioning, when the list is not scanned. */
  lemma CommissioningScans(acl: seq<Entry>, s: Subject, o: Object)
    ensures Commissioner(s) == {} || (Scan(acl, s, o, Commissioner(s)).Success? && Administer in Commissioner(s))
  {
  }

  /** After a replacement the privileges of the writer's subjects cannot be computed exactly when the data break. */
  lemma ReplacedScanFailsIff(acl: seq<Entry>, data: seq<EntryData>, writer: int, s: Subject, o: Object)
    requires Acceptable(data) && s.fabricIndex == writer
    ensures Scan(Without(acl, writer) + EntriesOf(data, writer), s, o, Commissioner(s)).Failure? <==>
            writer != 0 && Commissioner(s) == {} && Breaks(data, s, o)
  {
    var entries := EntriesOf(data, writer);
    CommissioningScans(Without(acl, writer) + entries, s, o);
    hide Scan, Only, Without, EntriesOf, Commissioner, Breaks;
    ScanOwnFabric(Without(acl, writer) + entries, s, o, {});
    OnlyConcat(Without(acl, writer), entries, writer);
    OnlyWithout(acl, writer, writer);
    OnlyOf(entries, writer, writer);
    assert [] + entries == entries;
    WrittenScanFailsIff(data, writer, s, o, {});
  }

  /**
   After an addition: exactly when they could not be before, or the data break and the old list does not
   administer.
   */
  lemma AddedScanFailsIff(acl: seq<Entry>, data: seq<EntryData>, writer: int, s: Subject, o: Object)
    requires Acceptable(data) && s.fabricIndex == writer
    ensures var before := Scan(acl, s, o, Commissioner(s));
            Scan(acl + EntriesOf(data, writer), s, o, Commissioner(s)).Failure? <==>
            before.Failure? || (writer != 0 && Administer !in before.value && Breaks(data, s, o))
  {
    var before := Scan(acl, s, o, Commissioner(s));
    ScanConcat(acl, EntriesOf(data, writer), s, o, Commissioner(s));
    if before.Success? && Administer !in before.value {
      WrittenScanFailsIff(data, writer, s, o, before.value);
    }
    hide Breaks, EntriesOf, Contribution, Commissioner;
  }

  /** An administrator's entry for endpoint 0 alone locks the fabric out: no request of it can be judged again. */
  lemma EndpointZeroLocksOut(acl: seq<Entry>, writer: int, s: Subject, o: Object)
    requires writer != 0 && s.fabricIndex == writer && s.mode == CASE
    ensures var data := [EntryData(5, 2, None, Some([TargetData(None, Some(0), None)]))];
            Acceptable(data) && Scan(Without(acl, writer) + EntriesOf(data, writer), s, o, {}).Failure?
  {
    var t := TargetData(None, Some(0), None);
    var data := [EntryData(5, 2, None, Some([t]))];
    assert Acceptable(data) && WrittenFails(data[0], s, o) by { assert !Scannable([t][0]); }
    hide WrittenFails, Scan, Without, EntriesOf, Acceptable;
    ReplacedScanFailsIff(acl, data, writer, s, o);
  }

  // ---------------------------------------------------------------------- numbers and names

  /** The number of a privilege on the wire; the order of the numbers is the order of the privileges. */
  function PrivilegeNumber(p: Privilege): int {
    match p case View => 1 case Operate => 3 case Manage => 4 case Administer => 5
  }

  /** A granted privilege brings those with smaller numbers. */
  lemma ClosureIs(p: Privilege, q: Privilege)
    ensures q in Closure(p) <==> PrivilegeNumber(q) <= PrivilegeNumber(p)
  {
  }

  /** The subject of an entry that names a CASE authenticated tag, by its id and version. */
  function CatSubject(id: int, version: int): int {
    0xFFFF_FFFD_0000_0000 + 0x1_0000 * id + version
  }

  /** The node id itself, or an authenticated tag of the subject at no lower a version. */
  ghost predicate Names(aclSubject: int, s: Subject) {
    || aclSubject == s.nodeId
    || exists i, v :: HasTag(aclSubject, s, i, v)
  }

  predicate HasTag(aclSubject: int, s: Subject, i: int, v: int) {
    && 0 <= i < |s.cats| && 0 <= s.cats[i].id <= 0xFFFF && s.cats[i].version <= v && 0 <= v <= 0xFFFF
    && aclSubject == CatSubject(s.cats[i].id, v)
  }

  lemma CatMatchesIff(aclSubject: int, s: Subject, i: nat)
    requires i < |s.cats|
    ensures CatMatches(aclSubject, s.cats[i]) <==> exists v :: HasTag(aclSubject, s, i, v)
  {
    var n := aclSubject - 0xFFFF_FFFD_0000_0000;
    assert 0xFFFF_FFFD_0000_0000 == 0x1_0000 * 0xFFFF_FFFD_0000;
    if CatMatches(aclSubject, s.cats[i]) {
      assert HasTag(aclSubject, s, i, aclSubject % 0x1_0000);
    }
    if v :| HasTag(aclSubject, s, i, v) {
      assert aclSubject == 0x1_0000 * (0xFFFF_FFFD_0000 + s.cats[i].id) + v;
      assert aclSubject / 0x1_0000 == 0xFFFF_FFFD_0000 + s.cats[i].id && aclSubject % 0x1_0000 == v;
    }
  }

  /** Whom a number in the subjects of an entry stands for. */
  lemma SubjectMatchesIff(aclSubject: int, s: Subject)
    ensures SubjectMatches(aclSubject, s) <==> Names(aclSubject, s)
  {
    forall i: nat | i < |s.cats|
      ensures CatMatches(aclSubject, s.cats[i]) <==> exists v :: HasTag(aclSubject, s, i, v)
    {
      CatMatchesIff(aclSubject, s, i);
    }
    hide CatMatches;
    if Names(aclSubject, s) && aclSubject != s.nodeId {
      var i, v :| HasTag(aclSubject, s, i, v);
      assert CatMatches(aclSubject, s.cats[i]);
    }
  }

  /** A commissioner over PASE has every privilege whatever the list says; without a list nobody else has any. */
  lemma CommissionerGranted(acl: seq<Entry>, s: Subject, o: Object, p: Privilege)
    ensures s.mode == PASE && s.isCommissioning ==>
              Scan(acl, s, o, Commissioner(s)).Success? && p in Scan(acl, s, o, Commissioner(s)).value
    ensures s.mode != PASE || !s.isCommissioning ==> Scan([], s, o, Commissioner(s)) == Success({})
  {
  }

  /** Which numbers a written entry may have. */
  lemma AcceptableIff(data: seq<EntryData>)
    ensures Acceptable(data) <==>
            forall e | e in data :: e.privilege in {1, 3, 4, 5} && e.authMode in {1, 2, 3}
  {
  }

  /**
   An entry written for a fabric, for any target: it grants the fabric's subjects of its mode (1 PASE, 2 CASE,
   3 group) that it names the privileges up to its number, and anyone else nothing.
   */
  lemma WrittenEntryGrants(e: EntryData, fabric: int, s: Subject, o: Object)
    requires EntryOf(e, fabric).Some? && e.targets.GetOr([]) == []
    ensures var r := Scan([EntryOf(e, fabric).value], s, o, {});
            r.Success? && forall p ::
              p in r.value <==>
              && fabric != 0 && s.fabricIndex == fabric
              && e.authMode == (match s.mode case PASE => 1 case CASE => 2 case Group => 3 case NoAuth => 0)
              && (e.subjects.GetOr([]) == [] || exists n :: n in e.subjects.value && Names(n, s))
              && PrivilegeNumber(p) <= e.privilege
  {
    var w := EntryOf(e, fabric).value;
    var subjects := e.subjects.GetOr([]);
    forall n ensures SubjectMatches(n, s) <==> Names(n, s) {
      SubjectMatchesIff(n, s);
    }
    forall p ensures p in Closure(w.privilege) <==> PrivilegeNumber(p) <= e.privilege {
      ClosureIs(w.privilege, p);
    }
    assert Concerns(w, s) <==>
           && fabric != 0 && fabric == s.fabricIndex && w.mode == s.mode
           && (subjects == [] || exists n :: n in subjects && Names(n, s));
    assert [w][1..] == [] && Scan([], s, o, {} + Closure(w.privilege)).Success? && Scan([], s, o, {} + {}).Success?;
    hide SubjectMatches, Names, Closure, Concerns;
  }
}
