/**
 Sessions, fabrics, access entries and subscriptions of one node, and the handlers that change them together
 (matter/message/message_layer.py, matter/crypto/secure_channel.py, matter/interaction_model/root_node.py and
 matter/interaction_model/interaction_model.py). Each handler is one atomic step; what the cryptography
 decides is an argument of the step.
 */
module Node {
  import opened Wrappers
  import opened Sets
  import Acl

  const MAX_SESSION_ID := 0xFFFF
  const MAX_FABRIC_INDEX := 253

  datatype Kind = PASE | CASE

  /**
   A fabric object. Its index in the table is used again after a removal, so each one also carries its identity:
   the first fabric ever added is 1, the next 2, and so on.
   */
  datatype Fabric = Fabric(identity: nat, name: string)

  /**
   `fabric` is the index a session acts under, zero for none. `owner` is the identity of the fabric it was
   authenticated for; like the owners of entries and subscriptions it is a record that no handler decides on
   (`OwnersDecideNothing`).
   */
  datatype Session = Session(kind: Kind, fabric: int, owner: nat, counter: int)

  /** A session that is not live yet, with its allocated id. */
  datatype Pending = Pending(id: int, session: Session)

  datatype Subscriber = Subscriber(fabric: int, node: int)

  datatype Subscription = Subscription(subscriber: Subscriber, owner: nat)

  datatype Owned = Owned(entry: Acl.Entry, owner: nat)

  /** Exchanges are numbered; `added` counts the fabrics ever added. */
  datatype State = State(
    live: map<int, Session>, pase: map<int, Pending>, sigma: map<int, Pending>, inUse: set<int>,
    fabrics: map<int, Fabric>, added: nat, acl: seq<Owned>, subscriptions: map<int, Subscription>)

  const NOBODY := 0

  /** The access list itself. */
  function Entries(acl: seq<Owned>): (r: seq<Acl.Entry>)
    ensures |r| == |acl| && forall i | 0 <= i < |acl| :: r[i] == acl[i].entry
  {
    seq(|acl|, i requires 0 <= i < |acl| => acl[i].entry)
  }

  function OwnedBy(entries: seq<Acl.Entry>, owner: nat): (r: seq<Owned>)
    ensures |r| == |entries| && forall i | 0 <= i < |entries| :: r[i] == Owned(entries[i], owner)
  {
    seq(|entries|, i requires 0 <= i < |entries| => Owned(entries[i], owner))
  }

  function Without(acl: seq<Owned>, fabric: int): seq<Owned> {
    if acl == [] then []
    else (if acl[0].entry.fabricIndex != fabric then [acl[0]] else []) + Without(acl[1..], fabric)
  }

  lemma {:induction false} WithoutIs(acl: seq<Owned>, fabric: int)
    ensures forall e :: e in Without(acl, fabric) <==> e in acl && e.entry.fabricIndex != fabric
  {
    if acl != [] {
      WithoutIs(acl[1..], fabric);
    }
  }

  lemma {:induction false} WithoutEntries(acl: seq<Owned>, fabric: int)
    ensures Entries(Without(acl, fabric)) == Acl.Without(Entries(acl), fabric)
  {
    if acl != [] {
      WithoutEntries(acl[1..], fabric);
      assert Entries(acl)[1..] == Entries(acl[1..]);
    }
  }

  // ---------------------------------------------------------------------- allocated ids

  predicate ValidIds(used: set<int>) {
    forall i | i in used :: 1 <= i <= MAX_SESSION_ID
  }

  /** Pigeonhole: fewer than 65535 ids in use leave one free, and 65535 leave none. */
  lemma Pigeonhole(used: set<int>)
    requires ValidIds(used)
    ensures |used| < MAX_SESSION_ID <==> FirstFree(used, MAX_SESSION_ID).Some?
  {
    var all := Free({}, MAX_SESSION_ID);
    RangeSize(MAX_SESSION_ID);
    SubsetSize(used, all);
    if FirstFree(used, MAX_SESSION_ID).None? {
      assert used == all;
    }
  }

  // ---------------------------------------------------------------------- session handlers

  /** Allocating an id fails without a trace when none is left. */
  ghost function PaseStart(s: State, exchange: int, counter: int): State {
    var id := FirstFree(s.inUse, MAX_SESSION_ID);
    if id.None? then s
    else s.(inUse := s.inUse + {id.value},
            pase := s.pase[exchange := Pending(id.value, Session(PASE, 0, NOBODY, counter))])
  }

  /** The last PASE message, with a correct confirmation or not. */
  function PaseFinish(s: State, exchange: int, confirmed: bool): State {
    if exchange !in s.pase then s
    else
      var p := s.pase[exchange];
      s.(pase := s.pase - {exchange}, live := if confirmed then s.live[p.id := p.session] else s.live)
  }

  /** The first CASE message for the fabric it names; an unusable key fails after the id is taken. */
  ghost function CaseStart(s: State, exchange: int, fabric: int, counter: int, usable: bool): State {
    var id := FirstFree(s.inUse, MAX_SESSION_ID);
    if fabric !in s.fabrics || id.None? then s
    else
      var t := s.(inUse := s.inUse + {id.value});
      var session := Session(CASE, fabric, s.fabrics[fabric].identity, counter);
      if usable then t.(sigma := s.sigma[exchange := Pending(id.value, session)]) else t
  }

  datatype Outcome = Accepted | Rejected | Raised

  /** The last CASE message: accepted, rejected, or failing with an exception before anything changes. */
  function CaseFinish(s: State, exchange: int, outcome: Outcome): State {
    if exchange !in s.sigma || outcome == Raised then s
    else
      var p := s.sigma[exchange];
      s.(sigma := s.sigma - {exchange}, live := if outcome == Accepted then s.live[p.id := p.session] else s.live)
  }

  /** A failure report from the peer. */
  function HandshakeFailed(s: State, exchange: int): State {
    s.(pase := s.pase - {exchange}, sigma := s.sigma - {exchange})
  }

  /** Sending on a live session; when the counter wraps to zero the session is dropped and its id is kept. */
  function Send(s: State, id: int): State {
    if id !in s.live then s
    else
      var c := (s.live[id].counter + 1) % 0x1_0000_0000;
      s.(live := if c == 0 then s.live - {id} else s.live[id := s.live[id].(counter := c)])
  }

  function PaseIds(s: State): set<int> {
    set i | i in s.live && s.live[i].kind == PASE
  }

  function TerminatePase(s: State): State {
    s.(live := s.live - PaseIds(s), inUse := s.inUse - PaseIds(s))
  }

  // ---------------------------------------------------------------------- fabric handlers

  datatype NocStatus = OK | NotAccepted | TableFull | LabelConflict | InvalidFabricIndex | Crashed

  function AdminEntry(fabric: int, admin: int): Acl.Entry {
    Acl.Entry(fabric, Acl.Administer, Acl.CASE, [admin], [])
  }

  /** AddNOC from a live session; `accepted` is the outcome of the certificate checks. */
  ghost function AddNoc(s: State, id: int, accepted: bool, admin: int): (State, NocStatus)
    requires id in s.live
  {
    var index := FirstFree(s.fabrics.Keys, MAX_FABRIC_INDEX);
    if !accepted then (s, NotAccepted)
    else if index.None? then (s, TableFull)
    else
      var identity := s.added + 1;
      (s.(live := if s.live[id].fabric == 0 then s.live[id := s.live[id].(fabric := index.value, owner := identity)]
                  else s.live,
          fabrics := s.fabrics[index.value := Fabric(identity, "")],
          added := identity,
          acl := s.acl + [Owned(AdminEntry(index.value, admin), identity)]), OK)
  }

  /** The conflict is found before the missing fabric. */
  function UpdateLabel(s: State, id: int, name: string): (State, NocStatus)
    requires id in s.live
  {
    var own := s.live[id].fabric;
    if exists f :: f in s.fabrics && s.fabrics[f].name == name && f != own then (s, LabelConflict)
    else if own !in s.fabrics then (s, Crashed)
    else (s.(fabrics := s.fabrics[own := s.fabrics[own].(name := name)]), OK)
  }

  function SessionsOf(s: State, fabric: int): set<int> {
    set i | i in s.live && s.live[i].fabric == fabric
  }

  function SubscriptionsOf(s: State, fabric: int): set<int> {
    set i | i in s.subscriptions && s.subscriptions[i].subscriber.fabric == fabric
  }

  function RemoveFabric(s: State, fabric: int): (State, NocStatus) {
    if fabric !in s.fabrics then (s, InvalidFabricIndex)
    else
      (s.(fabrics := s.fabrics - {fabric},
          acl := Without(s.acl, fabric),
          live := s.live - SessionsOf(s, fabric),
          inUse := s.inUse - SessionsOf(s, fabric),
          subscriptions := s.subscriptions - SubscriptionsOf(s, fabric)), OK)
  }

  function WriteAcl(s: State, id: int, data: seq<Acl.EntryData>, replace: bool): State
    requires id in s.live
  {
    var own := s.live[id].fabric;
    if !Acl.Acceptable(data) then s
    else s.(acl := (if replace then Without(s.acl, own) else s.acl)
                   + OwnedBy(Acl.EntriesOf(data, own), s.live[id].owner))
  }

  // ---------------------------------------------------------------------- subscriptions

  const MAX_SUBSCRIPTION_ID := 0xFFFF_FFFF

  function SameSubscriber(s: State, k: Subscriber): set<int> {
    set i | i in s.subscriptions && s.subscriptions[i].subscriber == k
  }

  /** A subscription is stored only when everything it asks for could be read. */
  ghost function Subscribe(s: State, id: int, node: int, keep: bool, readable: bool): State
    requires id in s.live
  {
    var k := Subscriber(s.live[id].fabric, node);
    var kept := if keep then s.subscriptions else s.subscriptions - SameSubscriber(s, k);
    var sid := FirstFree(kept.Keys, MAX_SUBSCRIPTION_ID);
    s.(subscriptions := if readable && sid.Some? then kept[sid.value := Subscription(k, s.live[id].owner)] else kept)
  }

  function CancelSubscription(s: State, sid: int): State {
    s.(subscriptions := s.subscriptions - {sid})
  }

  // ---------------------------------------------------------------------- steps and runs

  datatype Event =
    | EPaseStart(exchange: int, counter: int)
    | EPaseFinish(exchange: int, confirmed: bool)
    | ECaseStart(exchange: int, fabric: int, counter: int, usable: bool)
    | ECaseFinish(exchange: int, outcome: Outcome)
    | EHandshakeFailed(exchange: int)
    | ESend(id: int)
    | ETerminatePase
    | EAddNoc(id: int, accepted: bool, admin: int)
    | EUpdateLabel(id: int, name: string)
    | ERemoveFabric(id: int, fabric: int)
    | EWriteAcl(id: int, data: seq<Acl.EntryData>, replace: bool)
    | ESubscribe(id: int, node: int, keep: bool, readable: bool)
    | ECancelSubscription(sid: int)

  /** Commands arrive on live sessions only; messages for other session ids are dropped. */
  ghost function Step(s: State, e: Event): State {
    match e
    case EPaseStart(x, c) => PaseStart(s, x, c)
    case EPaseFinish(x, ok) => PaseFinish(s, x, ok)
    case ECaseStart(x, f, c, ok) => CaseStart(s, x, f, c, ok)
    case ECaseFinish(x, o) => CaseFinish(s, x, o)
    case EHandshakeFailed(x) => HandshakeFailed(s, x)
    case ESend(id) => Send(s, id)
    case ETerminatePase => TerminatePase(s)
    case EAddNoc(id, ok, admin) => if id in s.live then AddNoc(s, id, ok, admin).0 else s
    case EUpdateLabel(id, name) => if id in s.live then UpdateLabel(s, id, name).0 else s
    case ERemoveFabric(id, f) => if id in s.live then RemoveFabric(s, f).0 else s
    case EWriteAcl(id, data, replace) => if id in s.live then WriteAcl(s, id, data, replace) else s
    case ESubscribe(id, node, keep, ok) => if id in s.live then Subscribe(s, id, node, keep, ok) else s
    case ECancelSubscription(sid) => CancelSubscription(s, sid)
  }

  ghost function Run(s: State, events: seq<Event>): State
    decreases |events|
  {
    if events == [] then s else Run(Step(s, events[0]), events[1..])
  }

  const INITIAL := State(map[], map[], map[], {}, map[], 0, [], map[])

  // ---------------------------------------------------------------------- session ids

  /** Live and pending sessions have pairwise distinct ids, all allocated. */
  predicate IdsDistinct(s: State) {
    && ValidIds(s.inUse)
    && (forall i | i in s.live :: i in s.inUse)
    && (forall x | x in s.pase :: s.pase[x].id in s.inUse && s.pase[x].id !in s.live)
    && (forall x | x in s.sigma :: s.sigma[x].id in s.inUse && s.sigma[x].id !in s.live)
    && (forall x, y | x in s.pase && y in s.pase && x != y :: s.pase[x].id != s.pase[y].id)
    && (forall x, y | x in s.sigma && y in s.sigma && x != y :: s.sigma[x].id != s.sigma[y].id)
    && (forall x, y | x in s.pase && y in s.sigma :: s.pase[x].id != s.sigma[y].id)
  }

  lemma StepKeepsIds(s: State, e: Event)
    requires IdsDistinct(s)
    ensures IdsDistinct(Step(s, e))
  {
    hide PaseStart, PaseFinish, CaseStart, CaseFinish, Send, TerminatePase, AddNoc, UpdateLabel, RemoveFabric, WriteAcl;
    hide Subscribe, IdsDistinct;
    match e
    case EPaseStart(x, c) => PaseStartKeepsIds(s, x, c);
    case ECaseStart(x, f, c, ok) => CaseStartKeepsIds(s, x, f, c, ok);
    case EPaseFinish(x, ok) => PaseFinishKeepsIds(s, x, ok);
    case ECaseFinish(x, o) => CaseFinishKeepsIds(s, x, o);
    case ESend(id) => SendKeepsIds(s, id);
    case ETerminatePase => TerminateKeepsIds(s);
    case ERemoveFabric(_, f) => RemoveKeepsIds(s, f);
    case _ => OthersKeepIds(s, e);
  }

  lemma SendKeepsIds(s: State, id: int)
    requires IdsDistinct(s)
    ensures IdsDistinct(Send(s, id))
  {
  }

  lemma TerminateKeepsIds(s: State)
    requires IdsDistinct(s)
    ensures IdsDistinct(TerminatePase(s))
  {
  }

  lemma RemoveKeepsIds(s: State, fabric: int)
    requires IdsDistinct(s)
    ensures IdsDistinct(RemoveFabric(s, fabric).0)
  {
  }

  lemma OthersKeepIds(s: State, e: Event)
    requires IdsDistinct(s)
             && (e.EHandshakeFailed? || e.EAddNoc? || e.EUpdateLabel? || e.EWriteAcl? || e.ESubscribe?
                 || e.ECancelSubscription?)
    ensures IdsDistinct(Step(s, e))
  {
    hide FirstFree, Acl.Without, Acl.EntriesOf, Acl.Acceptable, SameSubscriber;
  }

  lemma PaseStartKeepsIds(s: State, x: int, c: int)
    requires IdsDistinct(s)
    ensures IdsDistinct(PaseStart(s, x, c))
  {
    hide FirstFree;
  }

  lemma CaseStartKeepsIds(s: State, x: int, f: int, c: int, usable: bool)
    requires IdsDistinct(s)
    ensures IdsDistinct(CaseStart(s, x, f, c, usable))
  {
    hide FirstFree;
  }

  lemma PaseFinishKeepsIds(s: State, x: int, confirmed: bool)
    requires IdsDistinct(s)
    ensures IdsDistinct(PaseFinish(s, x, confirmed))
  {
  }

  lemma CaseFinishKeepsIds(s: State, x: int, outcome: Outcome)
    requires IdsDistinct(s)
    ensures IdsDistinct(CaseFinish(s, x, outcome))
  {
  }

  lemma {:induction false} RunKeepsIds(s: State, events: seq<Event>)
    requires IdsDistinct(s)
    ensures IdsDistinct(Run(s, events))
    decreases |events|
  {
    hide Step, IdsDistinct;
    if events != [] {
      StepKeepsIds(s, events[0]);
      RunKeepsIds(Step(s, events[0]), events[1..]);
    }
  }

  lemma StartTakes(s: State, e: Event)
    requires e.EPaseStart? || (e.ECaseStart? && e.fabric in s.fabrics)
    ensures var id := FirstFree(s.inUse, MAX_SESSION_ID);
            if id.None? then Step(s, e) == s else Step(s, e).inUse == s.inUse + {id.value}
  {
    hide FirstFree;
  }

  lemma AtMostAll(used: set<int>)
    requires ValidIds(used)
    ensures |used| <= MAX_SESSION_ID
  {
    RangeSize(MAX_SESSION_ID);
    SubsetSize(used, Free({}, MAX_SESSION_ID));
  }

  /** The next id is the least that is not allocated. */
  ghost predicate TakesLeast(before: set<int>, after: set<int>, id: int) {
    after == before + {id} && 1 <= id <= 0xFFFF && id !in before && forall i | 1 <= i < id :: i in before
  }

  /** Every event that takes an id takes the least free one; none is taken exactly when all 65535 are allocated. */
  lemma AllocatedLeast(s: State, e: Event)
    requires IdsDistinct(s) && (e.EPaseStart? || (e.ECaseStart? && e.fabric in s.fabrics))
    ensures |s.inUse| == 0xFFFF ==> Step(s, e) == s
    ensures |s.inUse| != 0xFFFF ==> exists id :: TakesLeast(s.inUse, Step(s, e).inUse, id)
  {
    Pigeonhole(s.inUse);
    AtMostAll(s.inUse);
    StartTakes(s, e);
    hide Step, IdsDistinct;
    if |s.inUse| != MAX_SESSION_ID {
      assert TakesLeast(s.inUse, Step(s, e).inUse, FirstFree(s.inUse, MAX_SESSION_ID).value);
    }
  }

  // ---------------------------------------------------------------------- lost ids

  predicate PendingAt(pending: map<int, Pending>, exchange: int, id: int) {
    exchange in pending && pending[exchange].id == id
  }

  /** Allocated, but no session, live or pending, has it. */
  ghost predicate Lost(s: State, id: int) {
    && id in s.inUse && id !in s.live
    && forall x :: !PendingAt(s.pase, x, id) && !PendingAt(s.sigma, x, id)
  }

  /**
   The event loses the id: it ends a handshake without a session, starts another one on the same exchange, fails on
   an unusable key after taking the id, or wraps the counter of the id's session.
   */
  ghost predicate Loses(s: State, e: Event, id: int) {
    match e
    case EPaseStart(x, _) => PendingAt(s.pase, x, id) && FirstFree(s.inUse, MAX_SESSION_ID).Some?
    case EPaseFinish(x, confirmed) => PendingAt(s.pase, x, id) && !confirmed
    case ECaseStart(x, f, _, usable) =>
      && f in s.fabrics && FirstFree(s.inUse, MAX_SESSION_ID).Some?
      && if usable then PendingAt(s.sigma, x, id) else FirstFree(s.inUse, MAX_SESSION_ID) == Some(id)
    case ECaseFinish(x, outcome) => PendingAt(s.sigma, x, id) && outcome == Rejected
    case EHandshakeFailed(x) => PendingAt(s.pase, x, id) || PendingAt(s.sigma, x, id)
    case ESend(i) => i == id && id in s.live && (s.live[id].counter + 1) % 0x1_0000_0000 == 0
    case _ => false
  }

  lemma PaseStartLosesIff(s: State, e: Event, id: int)
    requires IdsDistinct(s) && e.EPaseStart?
    ensures Lost(Step(s, e), id) <==> Lost(s, id) || Loses(s, e, id)
  {
    hide FirstFree;
    var t := Step(s, e);
    forall x | x != e.exchange
      ensures PendingAt(t.pase, x, id) == PendingAt(s.pase, x, id)
      ensures PendingAt(t.sigma, x, id) == PendingAt(s.sigma, x, id)
    {
    }
    assert PendingAt(t.sigma, e.exchange, id) == PendingAt(s.sigma, e.exchange, id);
  }

  lemma CaseStartLosesIff(s: State, e: Event, id: int)
    requires IdsDistinct(s) && e.ECaseStart?
    ensures Lost(Step(s, e), id) <==> Lost(s, id) || Loses(s, e, id)
  {
    hide FirstFree;
    var t := Step(s, e);
    assert t.pase == s.pase && t.live == s.live;
    if t.sigma == s.sigma {
      hide IdsDistinct;
    } else {
      forall x | x != e.exchange ensures PendingAt(t.sigma, x, id) == PendingAt(s.sigma, x, id) {
      }
      assert PendingAt(t.sigma, e.exchange, id) <==> FirstFree(s.inUse, MAX_SESSION_ID) == Some(id);
    }
  }

  lemma PaseFinishLosesIff(s: State, e: Event, id: int)
    requires IdsDistinct(s) && e.EPaseFinish?
    ensures Lost(Step(s, e), id) <==> Lost(s, id) || Loses(s, e, id)
  {
    var t := Step(s, e);
    forall x | x != e.exchange
      ensures PendingAt(t.pase, x, id) == PendingAt(s.pase, x, id)
      ensures PendingAt(t.sigma, x, id) == PendingAt(s.sigma, x, id)
    {
    }
    assert PendingAt(t.sigma, e.exchange, id) == PendingAt(s.sigma, e.exchange, id);
  }

  lemma CaseFinishLosesIff(s: State, e: Event, id: int)
    requires IdsDistinct(s) && e.ECaseFinish?
    ensures Lost(Step(s, e), id) <==> Lost(s, id) || Loses(s, e, id)
  {
    var t := Step(s, e);
    forall x | x != e.exchange
      ensures PendingAt(t.pase, x, id) == PendingAt(s.pase, x, id)
      ensures PendingAt(t.sigma, x, id) == PendingAt(s.sigma, x, id)
    {
    }
    assert PendingAt(t.pase, e.exchange, id) == PendingAt(s.pase, e.exchange, id);
  }

  lemma FailureLosesIff(s: State, e: Event, id: int)
    requires IdsDistinct(s) && e.EHandshakeFailed?
    ensures Lost(Step(s, e), id) <==> Lost(s, id) || Loses(s, e, id)
  {
    var t := Step(s, e);
    forall x | x != e.exchange
      ensures PendingAt(t.pase, x, id) == PendingAt(s.pase, x, id)
      ensures PendingAt(t.sigma, x, id) == PendingAt(s.sigma, x, id)
    {
    }
  }

  lemma RemovalLosesIff(s: State, e: Event, id: int)
    requires IdsDistinct(s) && (e.ESend? || e.ETerminatePase? || e.ERemoveFabric?)
    ensures Lost(Step(s, e), id) <==> Lost(s, id) || Loses(s, e, id)
  {
    hide Without;
  }

  /** An id is lost after an event exactly when it was before or the event loses it: no event gives one back. */
  lemma StepLosesIff(s: State, e: Event, id: int)
    requires IdsDistinct(s)
    ensures Lost(Step(s, e), id) <==> Lost(s, id) || Loses(s, e, id)
  {
    hide FirstFree, Acl.EntriesOf, Acl.Acceptable, SameSubscriber, Without, IdsDistinct;
    match e
    case EPaseStart(_, _) => PaseStartLosesIff(s, e, id); hide Step, Loses;
    case ECaseStart(_, _, _, _) => CaseStartLosesIff(s, e, id); hide Step, Loses;
    case EPaseFinish(_, _) => PaseFinishLosesIff(s, e, id); hide Step, Loses;
    case ECaseFinish(_, _) => CaseFinishLosesIff(s, e, id); hide Step, Loses;
    case EHandshakeFailed(_) => FailureLosesIff(s, e, id); hide Step, Loses;
    case ESend(_) => RemovalLosesIff(s, e, id); hide Step, Loses;
    case ETerminatePase => RemovalLosesIff(s, e, id); hide Step, Loses;
    case ERemoveFabric(_, _) => RemovalLosesIff(s, e, id); hide Step, Loses;
    case _ =>
  }

  lemma {:induction false} RunKeepsLost(s: State, events: seq<Event>, id: int)
    requires IdsDistinct(s) && Lost(s, id)
    ensures Lost(Run(s, events), id)
    decreases |events|
  {
    hide Step, IdsDistinct, Lost, Loses;
    if events != [] {
      StepKeepsIds(s, events[0]);
      StepLosesIff(s, events[0], id);
      RunKeepsLost(Step(s, events[0]), events[1..], id);
    }
  }

  lemma NoneAllocated(s: State)
    requires IdsDistinct(s) && forall id | 1 <= id <= MAX_SESSION_ID :: Lost(s, id)
    ensures s.live == map[] && s.pase == map[] && s.sigma == map[]
  {
    forall i ensures i !in s.live {
      assert i in s.live ==> 1 <= i <= MAX_SESSION_ID;
      assert 1 <= i <= MAX_SESSION_ID ==> Lost(s, i);
    }
    forall x ensures x !in s.pase && x !in s.sigma {
      assert x in s.pase ==> Lost(s, s.pase[x].id) && PendingAt(s.pase, x, s.pase[x].id);
      assert x in s.sigma ==> Lost(s, s.sigma[x].id) && PendingAt(s.sigma, x, s.sigma[x].id);
    }
  }

  /** With every id lost no session is live or pending, whatever happens. */
  lemma AllLost(s: State, events: seq<Event>)
    requires IdsDistinct(s) && forall id | 1 <= id <= MAX_SESSION_ID :: Lost(s, id)
    ensures var t := Run(s, events); t.live == map[] && t.pase == map[] && t.sigma == map[]
  {
    var t := Run(s, events);
    RunKeepsIds(s, events);
    hide Run;
    forall id | 1 <= id <= MAX_SESSION_ID ensures Lost(t, id) {
      RunKeepsLost(s, events, id);
    }
    NoneAllocated(t);
  }

  /** PASE handshakes that end in a wrong confirmation. */
  function FailedHandshakes(n: nat): seq<Event> {
    if n == 0 then [] else FailedHandshakes(n - 1) + [EPaseStart(0, 1), EPaseFinish(0, false)]
  }

  lemma {:induction false} FailuresLose(n: nat)
    requires n <= MAX_SESSION_ID
    ensures Run(INITIAL, FailedHandshakes(n)) == INITIAL.(inUse := Free({}, n))
  {
    hide Step, Run;
    if n == 0 {
      RunNothing(INITIAL);
      assert Free({}, 0) == {};
    } else {
      var before := INITIAL.(inUse := Free({}, n - 1));
      FailuresLose(n - 1);
      RunTwice(INITIAL, FailedHandshakes(n - 1), [EPaseStart(0, 1), EPaseFinish(0, false)]);
      RunPair(before, EPaseStart(0, 1), EPaseFinish(0, false));
      FailureLoses(before, n);
    }
  }

  lemma RunNothing(s: State)
    ensures Run(s, []) == s
  {
  }

  lemma RunPair(s: State, a: Event, b: Event)
    ensures Run(s, [a, b]) == Step(Step(s, a), b)
  {
    hide Step;
    assert [a, b][1..] == [b] && [b][1..] == [];
    assert Run(s, [a, b]) == Run(Step(s, a), [b]);
  }

  lemma FailureLoses(s: State, n: int)
    requires 1 <= n <= MAX_SESSION_ID && s == INITIAL.(inUse := Free({}, n - 1))
    ensures Step(Step(s, EPaseStart(0, 1)), EPaseFinish(0, false)) == INITIAL.(inUse := Free({}, n))
  {
    FirstIs(s.inUse, MAX_SESSION_ID, n);
    hide FirstFree;
    assert s.inUse + {n} == Free({}, n);
    var t := Step(s, EPaseStart(0, 1));
    assert t.pase == map[0 := Pending(n, Session(PASE, 0, NOBODY, 1))];
    assert t.pase - {0} == map[];
  }

  /** After 65535 failed handshakes, an attempt each, no session is ever established again. */
  lemma NoMoreSessions(events: seq<Event>)
    ensures var t := Run(INITIAL, FailedHandshakes(0xFFFF) + events);
            t.live == map[] && t.pase == map[] && t.sigma == map[]
  {
    hide FailedHandshakes, Run;
    FailuresLose(MAX_SESSION_ID);
    var s := INITIAL.(inUse := Free({}, MAX_SESSION_ID));
    RunTwice(INITIAL, FailedHandshakes(MAX_SESSION_ID), events);
    assert IdsDistinct(s) && forall id | 1 <= id <= MAX_SESSION_ID :: Lost(s, id);
    AllLost(s, events);
  }

  // ---------------------------------------------------------------------- fabrics

  predicate FabricsWellNumbered(s: State) {
    forall f | f in s.fabrics :: 1 <= f <= MAX_FABRIC_INDEX
  }

  predicate LabelsUnique(s: State) {
    forall f, g | f in s.fabrics && g in s.fabrics && f != g && s.fabrics[f].name == s.fabrics[g].name ::
      s.fabrics[f].name == ""
  }

  lemma StepKeepsFabrics(s: State, e: Event)
    requires FabricsWellNumbered(s) && LabelsUnique(s)
    ensures FabricsWellNumbered(Step(s, e)) && LabelsUnique(Step(s, e))
  {
    hide FirstFree, PaseStart, PaseFinish, CaseStart, CaseFinish, TerminatePase, Acl.Without, Acl.EntriesOf;
    hide Acl.Acceptable, SameSubscriber;
    if e.EPaseStart? || e.EPaseFinish? || e.ECaseStart? || e.ECaseFinish? || e.ETerminatePase? {
      HandshakesKeepTables(s, e);
    }
  }

  /** The session handlers touch neither fabrics nor access entries nor subscriptions. */
  lemma HandshakesKeepTables(s: State, e: Event)
    requires || e.EPaseStart? || e.EPaseFinish? || e.ECaseStart? || e.ECaseFinish? || e.ETerminatePase? || e.ESend?
             || e.EHandshakeFailed?
    ensures Step(s, e).fabrics == s.fabrics && Step(s, e).added == s.added
    ensures Step(s, e).acl == s.acl && Step(s, e).subscriptions == s.subscriptions
  {
    hide FirstFree;
  }

  /** The new fabric has the least free index, and its entry and the session, if it had no fabric, go with it. */
  predicate AddedAt(s: State, t: State, id: int, admin: int, f: int)
    requires id in s.live
  {
    && 1 <= f <= 253 && f !in s.fabrics && (forall i | 1 <= i < f :: i in s.fabrics)
    && t.fabrics == s.fabrics[f := Fabric(s.added + 1, "")] && t.added == s.added + 1
    && t.acl == s.acl + [Owned(AdminEntry(f, admin), s.added + 1)]
    && t.live.Keys == s.live.Keys
    && t.live[id].fabric == (if s.live[id].fabric == 0 then f else s.live[id].fabric)
    && forall i | i in s.live && i != id :: t.live[i] == s.live[i]
  }

  /**
   AddNOC assigns the least free index and a new identity, and answers that the table is full exactly when all
   253 indexes are taken.
   */
  lemma AddNocAssigns(s: State, id: int, admin: int)
    requires id in s.live && FabricsWellNumbered(s)
    ensures var (t, status) := AddNoc(s, id, true, admin);
            && (status == TableFull <==> |s.fabrics.Keys| == 253)
            && (status == TableFull ==> t == s)
            && (status != TableFull ==> status == OK && exists f :: AddedAt(s, t, id, admin, f))
  {
    var all := Free({}, MAX_FABRIC_INDEX);
    RangeSize(MAX_FABRIC_INDEX);
    assert s.fabrics.Keys <= all;
    SubsetSize(s.fabrics.Keys, all);
    var free := FirstFree(s.fabrics.Keys, MAX_FABRIC_INDEX);
    if free.None? {
      assert s.fabrics.Keys == all;
    } else {
      hide FirstFree, AdminEntry;
      assert AddedAt(s, AddNoc(s, id, true, admin).0, id, admin, free.value);
    }
  }

  // ---------------------------------------------------------------------- the same fabric

  /** The index names the fabric with this identity. */
  predicate Installed(s: State, fabric: int, identity: nat) {
    fabric in s.fabrics && s.fabrics[fabric].identity == identity
  }

  /** Identities were given out by AddNOC, and each to one fabric. */
  predicate IdentitiesUnique(s: State) {
    && (forall f | f in s.fabrics :: 1 <= s.fabrics[f].identity <= s.added)
    && (forall f, g | f in s.fabrics && g in s.fabrics && s.fabrics[f].identity == s.fabrics[g].identity :: f == g)
  }

  /** The event takes the fabric out of the table. */
  predicate Removes(s: State, e: Event, fabric: int) {
    e.ERemoveFabric? && e.fabric == fabric && e.id in s.live && fabric in s.fabrics
  }

  /** Only a removal ends a fabric, and an index or identity once free of a fabric never names it again. */
  lemma StepInstalled(s: State, e: Event, fabric: int, identity: nat)
    requires IdentitiesUnique(s) && identity <= s.added
    ensures IdentitiesUnique(Step(s, e)) && s.added <= Step(s, e).added
    ensures Installed(Step(s, e), fabric, identity) <==> Installed(s, fabric, identity) && !Removes(s, e, fabric)
  {
    hide FirstFree, PaseStart, PaseFinish, CaseStart, CaseFinish, TerminatePase, Without, Acl.EntriesOf, Acl.Acceptable;
    hide SameSubscriber, AddNoc, Send;
    if e.EAddNoc? {
      if e.id in s.live { AddNocInstalled(s, e.id, e.accepted, e.admin, fabric, identity); }
    } else if || e.EPaseStart? || e.EPaseFinish? || e.ECaseStart? || e.ECaseFinish? || e.ETerminatePase? || e.ESend?
              || e.EHandshakeFailed? {
      HandshakesKeepTables(s, e);
      hide Step;
    }
  }

  lemma AddNocInstalled(s: State, id: int, accepted: bool, admin: int, fabric: int, identity: nat)
    requires IdentitiesUnique(s) && identity <= s.added && id in s.live
    ensures var t := AddNoc(s, id, accepted, admin).0;
            && IdentitiesUnique(t) && s.added <= t.added
            && (Installed(t, fabric, identity) <==> Installed(s, fabric, identity))
  {
    hide FirstFree, AdminEntry;
  }

  /** Some event of the run takes the fabric at the index out of the table. */
  ghost predicate Removed(s: State, events: seq<Event>, fabric: int)
    decreases |events|
  {
    events != [] && (Removes(s, events[0], fabric) || Removed(Step(s, events[0]), events[1..], fabric))
  }

  lemma {:induction false} RunInstalled(s: State, events: seq<Event>, fabric: int, identity: nat)
    requires IdentitiesUnique(s) && identity <= s.added
    ensures IdentitiesUnique(Run(s, events)) && s.added <= Run(s, events).added
    ensures !Installed(s, fabric, identity) ==> !Installed(Run(s, events), fabric, identity)
    ensures Installed(s, fabric, identity) ==>
              (Installed(Run(s, events), fabric, identity) <==> !Removed(s, events, fabric))
    decreases |events|
  {
    hide Step, IdentitiesUnique, Installed, Removes;
    if events != [] {
      StepInstalled(s, events[0], fabric, identity);
      RunInstalled(Step(s, events[0]), events[1..], fabric, identity);
    }
  }

  // ---------------------------------------------------------------------- references to fabrics

  /** No fabric, or the very fabric that is in the table at the index. */
  predicate Current(s: State, fabric: int, owner: nat) {
    (fabric == 0 && owner == NOBODY) || Installed(s, fabric, owner)
  }

  /** Every access entry, session, handshake and subscription belongs to no fabric or to one that is installed. */
  predicate RefsCurrent(s: State) {
    && (forall e | e in s.acl :: Current(s, e.entry.fabricIndex, e.owner))
    && (forall i | i in s.live :: Current(s, s.live[i].fabric, s.live[i].owner))
    && (forall x | x in s.pase :: s.pase[x].session.fabric == 0 && s.pase[x].session.owner == NOBODY)
    && (forall x | x in s.sigma :: Current(s, s.sigma[x].session.fabric, s.sigma[x].session.owner))
    && (forall i | i in s.subscriptions :: Current(s, s.subscriptions[i].subscriber.fabric, s.subscriptions[i].owner))
  }

  /** The event removes a fabric while a CASE handshake for it is pending. */
  predicate Orphans(s: State, e: Event) {
    e.ERemoveFabric? && Removes(s, e, e.fabric) && exists x :: x in s.sigma && s.sigma[x].session.fabric == e.fabric
  }

  /** RemoveFabric removes the fabric's entries, sessions, ids and subscriptions, and nothing else. */
  lemma RemoveFabricExactly(s: State, fabric: int)
    requires fabric in s.fabrics && IdsDistinct(s)
    ensures var t := RemoveFabric(s, fabric).0;
            && RemoveFabric(s, fabric).1 == OK
            && t.fabrics == s.fabrics - {fabric} && t.added == s.added
            && (forall e :: e in t.acl <==> e in s.acl && e.entry.fabricIndex != fabric)
            && (forall i :: i in t.live <==> i in s.live && s.live[i].fabric != fabric)
            && (forall i | i in t.live :: t.live[i] == s.live[i])
            && (forall i :: i in t.inUse <==> i in s.inUse && !(i in s.live && s.live[i].fabric == fabric))
            && (forall i :: i in t.subscriptions <==>
                            i in s.subscriptions && s.subscriptions[i].subscriber.fabric != fabric)
            && (forall i | i in t.subscriptions :: t.subscriptions[i] == s.subscriptions[i])
            && t.pase == s.pase && t.sigma == s.sigma
  {
    WithoutIs(s.acl, fabric);
    hide Without;
  }

  /** After its removal a fabric's subjects are granted nothing by the list. */
  lemma RemovedIsPowerless(s: State, fabric: int, subject: Acl.Subject, o: Acl.Object)
    requires fabric in s.fabrics && subject.fabricIndex == fabric && Acl.Commissioner(subject) == {}
    ensures Acl.Scan(Entries(RemoveFabric(s, fabric).0.acl), subject, o, {}) == Success({})
  {
    WithoutIs(s.acl, fabric);
    WithoutEntries(s.acl, fabric);
    hide Without, Acl.Without, Acl.Scan, Acl.Commissioner;
    Acl.NoEntriesNoGrant(Entries(RemoveFabric(s, fabric).0.acl), subject, o);
  }

  lemma RemoveKeepsRefsIff(s: State, fabric: int)
    requires RefsCurrent(s) && fabric in s.fabrics && fabric != 0
    ensures RefsCurrent(RemoveFabric(s, fabric).0) <==> forall x | x in s.sigma :: s.sigma[x].session.fabric != fabric
  {
    WithoutIs(s.acl, fabric);
    hide Without;
  }

  lemma FabricAdded(s: State, id: int, admin: int)
    requires RefsCurrent(s) && id in s.live
    ensures RefsCurrent(AddNoc(s, id, true, admin).0)
  {
    var t := AddNoc(s, id, true, admin).0;
    forall f, owner | Current(s, f, owner) ensures Current(t, f, owner) {
    }
    hide FirstFree;
  }

  lemma AclWritten(s: State, id: int, data: seq<Acl.EntryData>, replace: bool)
    requires RefsCurrent(s) && id in s.live
    ensures RefsCurrent(WriteAcl(s, id, data, replace))
  {
    WithoutIs(s.acl, s.live[id].fabric);
    hide Without, Acl.EntryOf;
  }

  lemma SubscribedRefs(s: State, id: int, node: int, keep: bool, readable: bool)
    requires RefsCurrent(s) && id in s.live
    ensures RefsCurrent(Subscribe(s, id, node, keep, readable))
  {
    hide FirstFree;
  }

  lemma StartRefs(s: State, e: Event)
    requires RefsCurrent(s) && (e.EPaseStart? || e.ECaseStart?)
    ensures RefsCurrent(Step(s, e))
  {
    hide FirstFree;
  }

  lemma FinishRefs(s: State, e: Event)
    requires RefsCurrent(s) && (e.EPaseFinish? || e.ECaseFinish? || e.EHandshakeFailed?)
    ensures RefsCurrent(Step(s, e))
  {
  }

  lemma StepKeepsRefs(s: State, e: Event)
    requires RefsCurrent(s) && FabricsWellNumbered(s) && !Orphans(s, e)
    ensures RefsCurrent(Step(s, e))
  {
    hide FirstFree, Without, Acl.EntriesOf, Acl.Acceptable, PaseStart, PaseFinish, CaseStart, CaseFinish, Subscribe;
    hide WriteAcl, RefsCurrent;
    match e
    case EAddNoc(id, ok, admin) => if id in s.live && ok { FabricAdded(s, id, admin); }
    case ERemoveFabric(id, f) => if id in s.live && f in s.fabrics { RemoveKeepsRefsIff(s, f); }
    case EWriteAcl(id, data, replace) => if id in s.live { AclWritten(s, id, data, replace); }
    case ESubscribe(id, node, keep, ok) => if id in s.live { SubscribedRefs(s, id, node, keep, ok); }
    case EPaseStart(_, _) => StartRefs(s, e);
    case EPaseFinish(_, _) => FinishRefs(s, e);
    case ECaseStart(_, _, _, _) => StartRefs(s, e);
    case ECaseFinish(_, _) => FinishRefs(s, e);
    case EHandshakeFailed(_) => FinishRefs(s, e);
    case _ => OtherRefs(s, e);
  }

  lemma OtherRefs(s: State, e: Event)
    requires RefsCurrent(s) && (e.ESend? || e.ETerminatePase? || e.EUpdateLabel? || e.ECancelSubscription?)
    ensures RefsCurrent(Step(s, e))
  {
  }

  /** No event of the run removes a fabric under a pending CASE handshake. */
  ghost predicate NoOrphans(s: State, events: seq<Event>)
    decreases |events|
  {
    events != [] ==> !Orphans(s, events[0]) && NoOrphans(Step(s, events[0]), events[1..])
  }

  lemma {:induction false} RunKeepsTables(s: State, events: seq<Event>)
    requires FabricsWellNumbered(s) && LabelsUnique(s)
    ensures FabricsWellNumbered(Run(s, events)) && LabelsUnique(Run(s, events))
    ensures RefsCurrent(s) && NoOrphans(s, events) ==> RefsCurrent(Run(s, events))
    decreases |events|
  {
    hide Step, FabricsWellNumbered, LabelsUnique, RefsCurrent, Orphans;
    if events != [] {
      StepKeepsFabrics(s, events[0]);
      if RefsCurrent(s) && NoOrphans(s, events) { StepKeepsRefs(s, events[0]); }
      RunKeepsTables(Step(s, events[0]), events[1..]);
    }
  }

  /** Over every run from an empty node. */
  lemma NodeInvariant(events: seq<Event>)
    ensures var s := Run(INITIAL, events);
            && IdsDistinct(s) && FabricsWellNumbered(s) && LabelsUnique(s) && IdentitiesUnique(s)
            && (NoOrphans(INITIAL, events) ==> RefsCurrent(s))
  {
    hide Run, NoOrphans;
    RunKeepsIds(INITIAL, events);
    RunKeepsTables(INITIAL, events);
    RunInstalled(INITIAL, events, 1, 0);
  }

  // ---------------------------------------------------------------------- late sessions

  /**
   A handshake started on an installed fabric and accepted after any run: the session belongs to the fabric it
   was authenticated for exactly when that same fabric is still installed, which is exactly when no event in
   between has removed it. The index alone does not tell: it may name a fabric added since.
   */
  lemma LateSessionIff(s: State, exchange: int, fabric: int, counter: int, events: seq<Event>)
    requires IdentitiesUnique(s) && fabric in s.fabrics && FirstFree(s.inUse, MAX_SESSION_ID).Some?
    ensures var started := CaseStart(s, exchange, fabric, counter, true);
            var p := started.sigma[exchange];
            var t := CaseFinish(Run(started, events), exchange, Accepted);
            StillPending(Run(started, events), exchange, p) ==>
              && p.id in t.live && t.live[p.id] == Session(CASE, fabric, s.fabrics[fabric].identity, counter)
              && (Current(t, fabric, t.live[p.id].owner) <==> Installed(t, fabric, s.fabrics[fabric].identity))
              && (Current(t, fabric, t.live[p.id].owner) <==> !Removed(started, events, fabric))
  {
    hide FirstFree, Run, Removed;
    var started := CaseStart(s, exchange, fabric, counter, true);
    RunInstalled(started, events, fabric, s.fabrics[fabric].identity);
  }

  /** The exchange still waits to finish the handshake it started. */
  predicate StillPending(s: State, exchange: int, p: Pending) {
    exchange in s.sigma && s.sigma[exchange] == p
  }

  /** Commissioning gives the first session and the first fabric the number 1. */
  lemma Commissioned() returns (s: State)
    ensures s == Step(Step(Step(INITIAL, EPaseStart(0, 1)), EPaseFinish(0, true)), EAddNoc(1, true, 7))
    ensures s.live == map[1 := Session(PASE, 1, 1, 1)] && s.fabrics == map[1 := Fabric(1, "")] && s.added == 1
    ensures s.sigma == map[] && s.pase == map[] && s.inUse == {1}
  {
    var s1 := Step(INITIAL, EPaseStart(0, 1));
    assert s1 == INITIAL.(inUse := {1}, pase := map[0 := Pending(1, Session(PASE, 0, NOBODY, 1))]) by {
      FirstIs({}, MAX_SESSION_ID, 1);
      assert {} + {1} == {1};
    }
    var s2 := Step(s1, EPaseFinish(0, true));
    assert s2.live == map[1 := Session(PASE, 0, NOBODY, 1)];
    FirstIs(s2.fabrics.Keys, MAX_FABRIC_INDEX, 1);
    s := Step(s2, EAddNoc(1, true, 7));
  }

  lemma FirstIs(used: set<int>, high: int, n: int)
    requires 1 <= n <= high && n !in used && forall i | 1 <= i < n :: i in used
    ensures FirstFree(used, high) == Some(n)
  {
  }

  /** Commissioning, a CASE handshake, removal of the fabric under it: a live session of a fabric that is gone. */
  lemma OrphanedSession()
    ensures exists events, i ::
              var t := Run(INITIAL, events);
              i in t.live && t.live[i].kind == CASE && t.live[i].fabric !in t.fabrics
              && !Current(t, t.live[i].fabric, t.live[i].owner)
  {
    hide Step, Run;
    var e1, e2, e3 := EPaseStart(0, 1), EPaseFinish(0, true), EAddNoc(1, true, 7);
    var e4, e5, e6 := ECaseStart(1, 1, 1, true), ERemoveFabric(1, 1), ECaseFinish(1, Accepted);
    var s3 := Commissioned();
    var s6 := FabricGone(s3);
    RunThree(INITIAL, e1, e2, e3);
    RunThree(s3, e4, e5, e6);
    RunTwice(INITIAL, [e1, e2, e3], [e4, e5, e6]);
    assert s6 == Run(INITIAL, [e1, e2, e3] + [e4, e5, e6]);
  }

  lemma FabricGone(s: State) returns (t: State)
    requires s.live == map[1 := Session(PASE, 1, 1, 1)] && s.fabrics == map[1 := Fabric(1, "")]
    requires s.sigma == map[] && s.inUse == {1}
    ensures t == Step(Step(Step(s, ECaseStart(1, 1, 1, true)), ERemoveFabric(1, 1)), ECaseFinish(1, Accepted))
    ensures 2 in t.live && t.live[2] == Session(CASE, 1, 1, 1) && t.fabrics == map[]
  {
    FirstIs({1}, MAX_SESSION_ID, 2);
    var s1 := Step(s, ECaseStart(1, 1, 1, true));
    assert s1.sigma == map[1 := Pending(2, Session(CASE, 1, 1, 1))];
    t := Step(Step(s1, ERemoveFabric(1, 1)), ECaseFinish(1, Accepted));
  }

  /**
   A second administrator adds a fabric after the removal and is given the free index, so the late session acts
   under the index of a fabric it was not authenticated for.
   */
  lemma ReusedIndex()
    ensures exists events, i ::
              var t := Run(INITIAL, events);
              i in t.live && t.live[i].kind == CASE && t.live[i].fabric in t.fabrics
              && !Current(t, t.live[i].fabric, t.live[i].owner)
  {
    var e1, e2, e3 := EPaseStart(0, 1), EPaseFinish(0, true), EAddNoc(1, true, 7);
    var e4, e5, e6 := EPaseStart(2, 1), EPaseFinish(2, true), ECaseStart(1, 1, 1, true);
    var e7, e8, e9 := ERemoveFabric(1, 1), EAddNoc(2, true, 9), ECaseFinish(1, Accepted);
    hide Step, Run;
    var s3 := Commissioned();
    var s6 := SecondCommissioner(s3);
    var s9 := FabricReplaced(s6);
    RunTwice(INITIAL, [e1, e2, e3] + [e4, e5, e6], [e7, e8, e9]);
    RunTwice(INITIAL, [e1, e2, e3], [e4, e5, e6]);
    RunThree(INITIAL, e1, e2, e3);
    RunThree(s3, e4, e5, e6);
    RunThree(s6, e7, e8, e9);
    assert s9 == Run(INITIAL, [e1, e2, e3] + [e4, e5, e6] + [e7, e8, e9]);
  }

  /** A second PASE session, and a CASE handshake for the first fabric. */
  lemma SecondCommissioner(s: State) returns (t: State)
    requires s.live == map[1 := Session(PASE, 1, 1, 1)] && s.fabrics == map[1 := Fabric(1, "")] && s.added == 1
    requires s.sigma == map[] && s.pase == map[] && s.inUse == {1}
    ensures t == Step(Step(Step(s, EPaseStart(2, 1)), EPaseFinish(2, true)), ECaseStart(1, 1, 1, true))
    ensures t.live == map[1 := Session(PASE, 1, 1, 1), 2 := Session(PASE, 0, NOBODY, 1)]
    ensures t.fabrics == s.fabrics && t.added == 1 && t.sigma == map[1 := Pending(3, Session(CASE, 1, 1, 1))]
  {
    FirstIs({1}, MAX_SESSION_ID, 2);
    FirstIs({1} + {2}, MAX_SESSION_ID, 3);
    var s1 := Step(s, EPaseStart(2, 1));
    assert s1 == s.(inUse := {1} + {2}, pase := map[2 := Pending(2, Session(PASE, 0, NOBODY, 1))]);
    var s2 := Step(s1, EPaseFinish(2, true));
    t := Step(s2, ECaseStart(1, 1, 1, true));
  }

  /** The first fabric goes, a second takes its index, and the handshake for the first is accepted. */
  lemma FabricReplaced(s: State) returns (t: State)
    requires s.live == map[1 := Session(PASE, 1, 1, 1), 2 := Session(PASE, 0, NOBODY, 1)]
    requires s.fabrics == map[1 := Fabric(1, "")] && s.added == 1
    requires s.sigma == map[1 := Pending(3, Session(CASE, 1, 1, 1))]
    ensures t == Step(Step(Step(s, ERemoveFabric(1, 1)), EAddNoc(2, true, 9)), ECaseFinish(1, Accepted))
    ensures 3 in t.live && t.live[3] == Session(CASE, 1, 1, 1) && t.fabrics == map[1 := Fabric(2, "")]
  {
    var s1 := Step(s, ERemoveFabric(1, 1));
    assert s1.fabrics == map[] && 2 in s1.live && s1.live[2].fabric == 0;
    FirstIs(s1.fabrics.Keys, MAX_FABRIC_INDEX, 1);
    var s2 := Step(s1, EAddNoc(2, true, 9));
    t := Step(s2, ECaseFinish(1, Accepted));
  }

  lemma {:induction false} RunTwice(s: State, a: seq<Event>, b: seq<Event>)
    ensures Run(s, a + b) == Run(Run(s, a), b)
    decreases |a|
  {
    hide Step;
    if a == [] {
      assert a + b == b;
    } else {
      RunTwice(Step(s, a[0]), a[1..], b);
      assert (a + b)[1..] == a[1..] + b;
    }
  }

  lemma RunThree(s: State, a: Event, b: Event, c: Event)
    ensures Run(s, [a, b, c]) == Step(Step(Step(s, a), b), c)
  {
    hide Step;
    assert [a, b, c][1..] == [b, c] && [b, c][1..] == [c] && [c][1..] == [];
    assert Run(s, [a, b, c]) == Run(Step(s, a), [b, c]) == Run(Step(Step(s, a), b), [c]);
  }
}
