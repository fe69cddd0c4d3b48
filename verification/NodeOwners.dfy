/**
 The owners of sessions, entries and subscriptions in Node.dfy are a record for its laws: no handler decides on
 them, so a node that keeps no such record behaves the same.
 */
module NodeOwners {
  import opened Node
  import opened Sets
  import Acl

  predicate SameSession(a: Session, b: Session) {
    a.kind == b.kind && a.fabric == b.fabric && a.counter == b.counter
  }

  predicate SameLive(a: map<int, Session>, b: map<int, Session>) {
    a.Keys == b.Keys && forall i | i in a && i in b :: SameSession(a[i], b[i])
  }

  predicate SamePending(a: map<int, Pending>, b: map<int, Pending>) {
    a.Keys == b.Keys && forall x | x in a && x in b :: a[x].id == b[x].id && SameSession(a[x].session, b[x].session)
  }

  predicate SameNames(a: map<int, Fabric>, b: map<int, Fabric>) {
    a.Keys == b.Keys && forall f | f in a && f in b :: a[f].name == b[f].name
  }

  predicate SameSubscribers(a: map<int, Subscription>, b: map<int, Subscription>) {
    a.Keys == b.Keys && forall i | i in a && i in b :: a[i].subscriber == b[i].subscriber
  }

  /** The two states differ at most in owners and identities. */
  predicate SameTables(s: State, t: State) {
    && SameLive(s.live, t.live) && SamePending(s.pase, t.pase) && SamePending(s.sigma, t.sigma) && s.inUse == t.inUse
    && SameNames(s.fabrics, t.fabrics) && Entries(s.acl) == Entries(t.acl)
    && SameSubscribers(s.subscriptions, t.subscriptions)
  }

  lemma SamePaseStart(s: State, t: State, x: int, c: int)
    requires SameTables(s, t)
    ensures SameTables(PaseStart(s, x, c), PaseStart(t, x, c))
  {
    hide FirstFree, Entries, SameLive, SameNames, SameSubscribers;
  }

  lemma SameCaseStart(s: State, t: State, x: int, f: int, c: int, usable: bool)
    requires SameTables(s, t)
    ensures SameTables(CaseStart(s, x, f, c, usable), CaseStart(t, x, f, c, usable))
  {
    assert f in s.fabrics.Keys <==> f in t.fabrics.Keys;
    hide FirstFree, Entries, SameLive, SameNames, SameSubscribers;
  }

  lemma SamePaseFinish(s: State, t: State, x: int, confirmed: bool)
    requires SameTables(s, t)
    ensures SameTables(PaseFinish(s, x, confirmed), PaseFinish(t, x, confirmed))
  {
    hide Entries, SameNames, SameSubscribers;
  }

  lemma SameCaseFinish(s: State, t: State, x: int, o: Outcome)
    requires SameTables(s, t)
    ensures SameTables(CaseFinish(s, x, o), CaseFinish(t, x, o))
  {
    hide Entries, SameNames, SameSubscribers;
  }

  lemma SameFailure(s: State, t: State, x: int)
    requires SameTables(s, t)
    ensures SameTables(HandshakeFailed(s, x), HandshakeFailed(t, x))
  {
    hide Entries, SameLive, SameNames, SameSubscribers;
  }

  lemma SameSend(s: State, t: State, id: int)
    requires SameTables(s, t)
    ensures SameTables(Send(s, id), Send(t, id))
  {
    hide Entries, SameNames, SamePending, SameSubscribers;
  }

  lemma SameTermination(s: State, t: State)
    requires SameTables(s, t)
    ensures SameTables(TerminatePase(s), TerminatePase(t))
  {
    hide Entries, SameNames, SamePending, SameSubscribers;
    forall i ensures i in PaseIds(s) <==> i in PaseIds(t) {
      assert i in s.live.Keys <==> i in t.live.Keys;
    }
    assert PaseIds(s) == PaseIds(t);
  }

  lemma SameCancellation(s: State, t: State, sid: int)
    requires SameTables(s, t)
    ensures SameTables(CancelSubscription(s, sid), CancelSubscription(t, sid))
  {
    hide Entries, SameLive, SameNames, SamePending;
  }

  lemma SameRemoval(s: State, t: State, fabric: int)
    requires SameTables(s, t)
    ensures SameTables(RemoveFabric(s, fabric).0, RemoveFabric(t, fabric).0)
    ensures RemoveFabric(s, fabric).1 == RemoveFabric(t, fabric).1
  {
    WithoutEntries(s.acl, fabric);
    WithoutEntries(t.acl, fabric);
    hide Entries, SamePending, Without, Acl.Without;
    assert s.fabrics.Keys == t.fabrics.Keys;
    forall i ensures i in SessionsOf(s, fabric) <==> i in SessionsOf(t, fabric) {
      assert i in s.live.Keys <==> i in t.live.Keys;
    }
    forall i ensures i in SubscriptionsOf(s, fabric) <==> i in SubscriptionsOf(t, fabric) {
      assert i in s.subscriptions.Keys <==> i in t.subscriptions.Keys;
    }
    assert SessionsOf(s, fabric) == SessionsOf(t, fabric) && SubscriptionsOf(s, fabric) == SubscriptionsOf(t, fabric);
  }

  lemma SameAddNoc(s: State, t: State, id: int, accepted: bool, admin: int)
    requires SameTables(s, t) && id in s.live && id in t.live
    ensures SameTables(AddNoc(s, id, accepted, admin).0, AddNoc(t, id, accepted, admin).0)
    ensures AddNoc(s, id, accepted, admin).1 == AddNoc(t, id, accepted, admin).1
  {
    hide FirstFree, SamePending, SameSubscribers, AdminEntry;
  }

  lemma SameUpdateLabel(s: State, t: State, id: int, name: string)
    requires SameTables(s, t) && id in s.live && id in t.live
    ensures SameTables(UpdateLabel(s, id, name).0, UpdateLabel(t, id, name).0)
    ensures UpdateLabel(s, id, name).1 == UpdateLabel(t, id, name).1
  {
    hide SamePending, SameSubscribers, Entries;
    var own := s.live[id].fabric;
    forall f ensures f in s.fabrics && s.fabrics[f].name == name && f != own
                     <==> f in t.fabrics && t.fabrics[f].name == name && f != own {
      assert f in s.fabrics.Keys <==> f in t.fabrics.Keys;
    }
  }

  lemma SameWriteAcl(s: State, t: State, id: int, data: seq<Acl.EntryData>, replace: bool)
    requires SameTables(s, t) && id in s.live && id in t.live
    ensures SameTables(WriteAcl(s, id, data, replace), WriteAcl(t, id, data, replace))
  {
    WithoutEntries(s.acl, s.live[id].fabric);
    WithoutEntries(t.acl, s.live[id].fabric);
    hide SamePending, SameNames, SameSubscribers, Without, Acl.Without, Acl.EntriesOf, Acl.Acceptable;
    EntriesConcat(if replace then Without(s.acl, s.live[id].fabric) else s.acl,
                  if replace then Without(t.acl, s.live[id].fabric) else t.acl);
  }

  lemma EntriesConcat(a: seq<Owned>, b: seq<Owned>)
    requires Entries(a) == Entries(b)
    ensures forall w: seq<Acl.Entry>, o, p :: Entries(a + OwnedBy(w, o)) == Entries(b + OwnedBy(w, p))
  {
  }

  lemma SameSubscribed(s: State, t: State, id: int, node: int, keep: bool, readable: bool)
    requires SameTables(s, t) && id in s.live && id in t.live
    ensures SameTables(Subscribe(s, id, node, keep, readable), Subscribe(t, id, node, keep, readable))
  {
    hide FirstFree, SamePending, SameNames, Entries;
    var k := Subscriber(s.live[id].fabric, node);
    forall i ensures i in SameSubscriber(s, k) <==> i in SameSubscriber(t, k) {
      assert i in s.subscriptions.Keys <==> i in t.subscriptions.Keys;
    }
    assert SameSubscriber(s, k) == SameSubscriber(t, k);
  }

  /** What a handler does to the tables does not depend on owners and identities. */
  lemma OwnersDecideNothing(s: State, t: State, e: Event)
    requires SameTables(s, t)
    ensures SameTables(Step(s, e), Step(t, e))
  {
    assert s.live.Keys == t.live.Keys;
    hide PaseStart, PaseFinish, CaseStart, CaseFinish, WriteAcl, AddNoc, UpdateLabel, Send, HandshakeFailed;
    hide TerminatePase, Subscribe, RemoveFabric, SameTables;
    match e
    case EPaseStart(x, c) => SamePaseStart(s, t, x, c);
    case EPaseFinish(x, ok) => SamePaseFinish(s, t, x, ok);
    case ECaseStart(x, f, c, ok) => SameCaseStart(s, t, x, f, c, ok);
    case ECaseFinish(x, o) => SameCaseFinish(s, t, x, o);
    case EHandshakeFailed(x) => SameFailure(s, t, x);
    case ESend(id) => SameSend(s, t, id);
    case ETerminatePase => SameTermination(s, t);
    case ECancelSubscription(sid) => SameCancellation(s, t, sid);
    case ERemoveFabric(_, f) => SameRemoval(s, t, f);
    case EAddNoc(id, ok, admin) => if id in s.live { SameAddNoc(s, t, id, ok, admin); }
    case EUpdateLabel(id, name) => if id in s.live { SameUpdateLabel(s, t, id, name); }
    case EWriteAcl(id, data, replace) => if id in s.live { SameWriteAcl(s, t, id, data, replace); }
    case ESubscribe(id, node, keep, ok) => if id in s.live { SameSubscribed(s, t, id, node, keep, ok); }
  }

  lemma {:induction false} RunSame(s: State, t: State, events: seq<Event>)
    requires SameTables(s, t)
    ensures SameTables(Run(s, events), Run(t, events))
    decreases |events|
  {
    hide Step, SameTables;
    if events != [] {
      OwnersDecideNothing(s, t, events[0]);
      RunSame(Step(s, events[0]), Step(t, events[0]), events[1..]);
    }
  }
}
