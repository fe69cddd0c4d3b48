/** What the handlers of a node change, told by what can be asked of the node afterwards. */
module NodeEffects {
  import opened Wrappers
  import opened Sets
  import opened Node
  import Acl

  // ---------------------------------------------------------------------- the first entry of a fabric

  /** What the access list grants now. */
  function Granted(s: State, subject: Acl.Subject, o: Acl.Object): Result<set<Acl.Privilege>> {
    Acl.Scan(Entries(s.acl), subject, o, Acl.Commissioner(subject))
  }

  const EVERYTHING := {Acl.View, Acl.Operate, Acl.Manage, Acl.Administer}

  /** The subject was authenticated by CASE on the fabric, as the administrator AddNOC names. */
  ghost predicate IsAdmin(subject: Acl.Subject, fabric: int, admin: int) {
    subject.mode == Acl.CASE && subject.fabricIndex == fabric && Acl.Names(admin, subject)
  }

  lemma AllPrivileges(p: Acl.Privilege)
    ensures p in EVERYTHING
  {
  }

  lemma AdminContribution(fabric: int, admin: int, subject: Acl.Subject, o: Acl.Object)
    requires fabric != 0
    ensures Acl.Contribution(AdminEntry(fabric, admin), subject, o) ==
            Success(if IsAdmin(subject, fabric, admin) then EVERYTHING else {})
  {
    Acl.SubjectMatchesIff(admin, subject);
    var e := AdminEntry(fabric, admin);
    assert e.subjects[0] == admin;
    hide Acl.SubjectMatches, Acl.Names;
    assert Acl.Closure(Acl.Administer) == EVERYTHING;
    assert Acl.Concerns(e, subject) <==> IsAdmin(subject, fabric, admin);
  }

  lemma EntriesAppend(acl: seq<Owned>, e: Owned)
    ensures Entries(acl + [e]) == Entries(acl) + [e.entry]
  {
  }

  /**
   What AddNOC does to anyone's privileges: the administrator it names gains all of them on the new index, and
   nobody else, by another id, another mode or on another fabric, gains or loses anything.
   */
  lemma AddNocGrants(s: State, id: int, admin: int, subject: Acl.Subject, o: Acl.Object)
    requires id in s.live
    ensures var (t, status) := AddNoc(s, id, true, admin);
            status == OK ==>
              exists f :: && f !in s.fabrics && t.fabrics.Keys == s.fabrics.Keys + {f}
                && Granted(t, subject, o) ==
                   if IsAdmin(subject, f, admin) && Granted(s, subject, o).Success? then Success(EVERYTHING)
                   else Granted(s, subject, o)
    ensures AddNoc(s, id, false, admin) == (s, NotAccepted)
  {
    var (t, status) := AddNoc(s, id, true, admin);
    if status == OK {
      var f := FirstFree(s.fabrics.Keys, MAX_FABRIC_INDEX).value;
      var identity := s.added + 1;
      EntriesAppend(s.acl, Owned(AdminEntry(f, admin), identity));
      AdminContribution(f, admin, subject, o);
      AdminAppended(Entries(s.acl), AdminEntry(f, admin), IsAdmin(subject, f, admin), subject, o);
      hide Acl.Scan, Acl.Commissioner, IsAdmin, AdminEntry, FirstFree;
      assert t.fabrics.Keys == s.fabrics.Keys + {f};
    }
  }

  lemma AdminAppended(acl: seq<Acl.Entry>, e: Acl.Entry, isAdmin: bool, subject: Acl.Subject, o: Acl.Object)
    requires Acl.Contribution(e, subject, o) == Success(if isAdmin then EVERYTHING else {})
    ensures var before := Acl.Scan(acl, subject, o, Acl.Commissioner(subject));
            Acl.Scan(acl + [e], subject, o, Acl.Commissioner(subject)) ==
            if isAdmin && before.Success? then Success(EVERYTHING) else before
  {
    var c := Acl.Commissioner(subject);
    var before := Acl.Scan(acl, subject, o, c);
    Acl.ScanConcat(acl, [e], subject, o, c);
    if before.Success? {
      Acl.GrantedIsUnion(acl, subject, o);
      hide Acl.Contribution, Acl.Commissioner, Acl.Grants;
      assert [e][1..] == [] && before.value + {} == before.value;
      forall p ensures p in EVERYTHING {
        AllPrivileges(p);
      }
      assert before.value + EVERYTHING == EVERYTHING;
      assert Acl.Administer in before.value ==> before.value == EVERYTHING;
      assert Acl.Scan([], subject, o, before.value) == Success(before.value);
      assert Acl.Scan([], subject, o, EVERYTHING) == Success(EVERYTHING);
    }
  }

  /**
   On a fabric just added every operational subject is granted everything when it is the administrator, and
   nothing when it is not.
   */
  lemma NewFabricGrants(s: State, id: int, admin: int, subject: Acl.Subject, o: Acl.Object)
    requires id in s.live && RefsCurrent(s) && subject.mode != Acl.PASE
    requires AddNoc(s, id, true, admin).1 == OK
    requires subject.fabricIndex in AddNoc(s, id, true, admin).0.fabrics && subject.fabricIndex !in s.fabrics
    ensures Granted(AddNoc(s, id, true, admin).0, subject, o) ==
            Success(if subject.mode == Acl.CASE && Acl.Names(admin, subject) then EVERYTHING else {})
  {
    AddNocGrants(s, id, admin, subject, o);
    forall e | e in Entries(s.acl) ensures e.fabricIndex != subject.fabricIndex {
      var i :| 0 <= i < |s.acl| && Entries(s.acl)[i] == e;
      assert s.acl[i] in s.acl;
    }
    Acl.NoEntriesNoGrant(Entries(s.acl), subject, o);
    hide Acl.Scan, Acl.Names, FirstFree, RefsCurrent;
  }

  // ---------------------------------------------------------------------- sessions and labels

  /** Removing a fabric that is not there changes nothing. */
  lemma UnknownFabricRefused(s: State, fabric: int)
    requires fabric !in s.fabrics
    ensures RemoveFabric(s, fabric) == (s, InvalidFabricIndex)
  {
  }

  /** Ending the PASE sessions ends those and gives their ids back, and touches no other session or id. */
  lemma TerminationExactly(s: State)
    ensures var t := TerminatePase(s);
            && (forall i :: i in t.live <==> i in s.live && s.live[i].kind == CASE)
            && (forall i | i in t.live :: t.live[i] == s.live[i])
            && (forall i :: i in t.inUse <==> i in s.inUse && !(i in s.live && s.live[i].kind == PASE))
            && t == s.(live := t.live, inUse := t.inUse)
  {
  }

  /**
   A label is refused exactly when another fabric has it, and the handler fails without a fabric of its own;
   otherwise the session's fabric is afterwards the only one with the label, and nothing else has changed.
   */
  lemma LabelledExactly(s: State, id: int, name: string)
    requires id in s.live
    ensures var (t, status) := UpdateLabel(s, id, name);
            var own := s.live[id].fabric;
            && (status == LabelConflict <==> exists f :: f in s.fabrics && f != own && s.fabrics[f].name == name)
            && (status == Crashed ==> own !in s.fabrics)
            && (status == OK ==> own in s.fabrics)
            && (status == OK || status == LabelConflict || status == Crashed)
            && (status != OK ==> t == s)
            && (status == OK ==>
                  && t == s.(fabrics := t.fabrics) && t.fabrics.Keys == s.fabrics.Keys
                  && (forall f :: f in t.fabrics && t.fabrics[f].name == name <==> f == own)
                  && t.fabrics[own].identity == s.fabrics[own].identity
                  && (forall f | f in s.fabrics && f != own :: t.fabrics[f] == s.fabrics[f]))
  {
  }

  // ---------------------------------------------------------------------- the list, written through a session

  lemma EntriesConcat(a: seq<Owned>, b: seq<Owned>)
    ensures Entries(a + b) == Entries(a) + Entries(b)
  {
  }

  /** A refused write changes nothing; an accepted one replaces, or adds to, the writer's entries only. */
  lemma WriteAclExactly(s: State, id: int, data: seq<Acl.EntryData>, replace: bool, fabric: int)
    requires id in s.live
    ensures var t := WriteAcl(s, id, data, replace);
            var own := s.live[id].fabric;
            var before, after := Acl.Only(Entries(s.acl), fabric), Acl.Only(Entries(t.acl), fabric);
            && t == s.(acl := t.acl)
            && (forall e | e in t.acl :: e in s.acl || (e.entry.fabricIndex == own && e.owner == s.live[id].owner))
            && (fabric != own || !Acl.Acceptable(data) ==> after == before)
            && (fabric == own && Acl.Acceptable(data) ==>
                  after == (if replace then [] else before) + Acl.EntriesOf(data, own))
  {
    var own := s.live[id].fabric;
    if Acl.Acceptable(data) {
      var written := Acl.EntriesOf(data, own);
      var kept := if replace then Without(s.acl, own) else s.acl;
      WithoutIs(s.acl, own);
      WithoutEntries(s.acl, own);
      EntriesConcat(kept, OwnedBy(written, s.live[id].owner));
      assert Entries(OwnedBy(written, s.live[id].owner)) == written;
      hide Acl.EntriesOf, Acl.Acceptable, Without, Acl.Without, Acl.Only, Entries;
      Acl.OnlyConcat(Entries(kept), written, fabric);
      Acl.OnlyWithout(Entries(s.acl), own, fabric);
      Acl.OnlyOf(written, own, fabric);
      assert Acl.Only(Entries(s.acl), fabric) + [] == Acl.Only(Entries(s.acl), fabric);
    }
  }

  /** Read back after a replacement: what was written, exactly when no list in it is empty and no id zero. */
  lemma ReplacementReadBackIff(s: State, id: int, data: seq<Acl.EntryData>)
    requires id in s.live && Acl.Acceptable(data)
    ensures var own := s.live[id].fabric;
            Acl.ShownAll(Acl.Only(Entries(WriteAcl(s, id, data, true).acl), own)) == data
            <==> forall i :: 0 <= i < |data| ==> Acl.Plain(data[i])
  {
    var own := s.live[id].fabric;
    WriteAclExactly(s, id, data, true, own);
    Acl.ReadAfterReplaceIff([], data, own);
    assert Acl.Without([], own) == [] && [] + Acl.EntriesOf(data, own) == Acl.EntriesOf(data, own);
    hide Acl.EntriesOf, Acl.Acceptable, Acl.ShownAll, Acl.Plain, WriteAcl;
    Acl.OnlyOf(Acl.EntriesOf(data, own), own, own);
  }

  // ---------------------------------------------------------------------- subscribing

  /** The subscription outlives a new one of the subscriber: it is someone else's, or all are to be kept. */
  predicate Outlives(s: State, i: int, k: Subscriber, keep: bool) {
    i in s.subscriptions && (keep || s.subscriptions[i].subscriber != k)
  }

  /**
   Subscribing: without `keep` every earlier subscription of the subscriber ends, even when the new one cannot be
   made; the others stay as they are. The new one has the least number not taken, and is made exactly when all it
   asks for can be read and a number is left.
   */
  lemma SubscribeExactly(s: State, id: int, node: int, keep: bool, readable: bool)
    requires id in s.live
    ensures var t := Subscribe(s, id, node, keep, readable);
            var k := Subscriber(s.live[id].fabric, node);
            && t == s.(subscriptions := t.subscriptions)
            && (forall i | Outlives(s, i, k, keep) :: i in t.subscriptions && t.subscriptions[i] == s.subscriptions[i])
            && (!readable || (forall i | 1 <= i <= 0xFFFF_FFFF :: Outlives(s, i, k, keep)) ==>
                  forall i | i in t.subscriptions :: Outlives(s, i, k, keep))
            && (readable && (exists i :: 1 <= i <= 0xFFFF_FFFF && !Outlives(s, i, k, keep)) ==>
                  exists n ::
                    && 1 <= n <= 0xFFFF_FFFF && !Outlives(s, n, k, keep)
                    && (forall i | 1 <= i < n :: Outlives(s, i, k, keep))
                    && n in t.subscriptions && t.subscriptions[n] == Subscription(k, s.live[id].owner)
                    && forall i | i in t.subscriptions && i != n :: Outlives(s, i, k, keep))
  {
    var k := Subscriber(s.live[id].fabric, node);
    var kept := if keep then s.subscriptions else s.subscriptions - SameSubscriber(s, k);
    forall i ensures i in kept <==> Outlives(s, i, k, keep) {
    }
    var sid := FirstFree(kept.Keys, MAX_SUBSCRIPTION_ID);
    hide FirstFree, SameSubscriber;
    if readable && sid.Some? {
      assert !Outlives(s, sid.value, k, keep);
    }
  }
}
