/** The handlers of Node.dfy as they run: tables updated in place, with loops that collect what to delete. */
module NodeHandlers {
  import opened Wrappers
  import opened Node
  import opened Sets

  class Device {
    var live: map<int, Session>
    var pase: map<int, Pending>
    var sigma: map<int, Pending>
    var inUse: set<int>
    var fabrics: map<int, Fabric>
    var added: nat
    var acl: seq<Owned>
    var subscriptions: map<int, Subscription>

    ghost function Abs(): State
      reads this
    {
      State(live, pase, sigma, inUse, fabrics, added, acl, subscriptions)
    }

    constructor ()
      ensures Abs() == INITIAL
    {
      live, pase, sigma, inUse := map[], map[], map[], {};
      fabrics, added, acl, subscriptions := map[], 0, [], map[];
    }

    method AllocateSessionId() returns (r: Result<int>)
      requires ValidIds(inUse)
      modifies this`inUse
      ensures var free := FirstFree(old(inUse), MAX_SESSION_ID);
              && r == (if free.Some? then Success(free.value) else Failure(NotImplementedError))
              && inUse == (if free.Some? then old(inUse) + {free.value} else old(inUse))
    {
      Pigeonhole(inUse);
      if |inUse| < MAX_SESSION_ID {
        for sid := 1 to MAX_SESSION_ID + 1
          invariant inUse == old(inUse) && forall j | 1 <= j < sid :: j in inUse
        {
          if sid !in inUse {
            inUse := inUse + {sid};
            return Success(sid);
          }
        }
      }
      return Failure(NotImplementedError);
    }

    method PbkdfParamRequest(exchange: int, counter: int)
      requires IdsDistinct(Abs())
      modifies this
      ensures Abs() == PaseStart(old(Abs()), exchange, counter)
    {
      hide FirstFree;
      var id := AllocateSessionId();
      if id.Success? {
        pase := pase[exchange := Pending(id.value, Session(PASE, 0, NOBODY, counter))];
      }
    }

    method PasePake3(exchange: int, confirmed: bool)
      modifies this
      ensures Abs() == PaseFinish(old(Abs()), exchange, confirmed)
    {
      if exchange !in pase {
        return;
      }
      var pending := pase[exchange];
      if !confirmed {
        pase := pase - {exchange};
        return;
      }
      live := live[pending.id := pending.session];
      pase := pase - {exchange};
    }

    method CaseSigma1(exchange: int, fabric: int, counter: int, usable: bool)
      requires IdsDistinct(Abs())
      modifies this
      ensures Abs() == CaseStart(old(Abs()), exchange, fabric, counter, usable)
    {
      hide FirstFree;
      if fabric !in fabrics {
        return;
      }
      var id := AllocateSessionId();
      if id.Success? && usable {
        var session := Session(CASE, fabric, fabrics[fabric].identity, counter);
        sigma := sigma[exchange := Pending(id.value, session)];
      }
    }

    method CaseSigma3(exchange: int, outcome: Outcome)
      modifies this
      ensures Abs() == CaseFinish(old(Abs()), exchange, outcome)
    {
      if exchange !in sigma || outcome == Raised {
        return;
      }
      var pending := sigma[exchange];
      if outcome == Rejected {
        sigma := sigma - {exchange};
        return;
      }
      live := live[pending.id := pending.session];
      sigma := sigma - {exchange};
    }

    method HandleFailureReport(exchange: int)
      modifies this
      ensures Abs() == HandshakeFailed(old(Abs()), exchange)
    {
      if exchange in pase {
        pase := pase - {exchange};
      }
      if exchange in sigma {
        sigma := sigma - {exchange};
      }
    }

    method CountSent(id: int)
      requires id in live
      modifies this
      ensures Abs() == Send(old(Abs()), id)
    {
      var counter := (live[id].counter + 1) % 0x1_0000_0000;
      live := live[id := live[id].(counter := counter)];
      if counter == 0 {
        live := live - {id};
      }
    }

    /** Releasing an id fails, as a KeyError, when it is not in use; the invariant on ids says that it is. */
    method ReleaseId(id: int) returns (r: Result<()>)
      modifies this`inUse
      ensures r.Success? <==> id in old(inUse)
      ensures inUse == old(inUse) - {id}
    {
      if id !in inUse {
        return Failure(KeyError);
      }
      inUse := inUse - {id};
      return Success(());
    }

    method TerminateAllPaseSessions() returns (r: Result<()>)
      requires IdsDistinct(Abs())
      modifies this
      ensures r.Success? && Abs() == TerminatePase(old(Abs()))
    {
      var ids := live.Keys;
      var toRemove: set<int> := {};
      while ids != {}
        invariant ids <= live.Keys && Abs() == old(Abs())
        invariant toRemove == set i | i in live && live[i].kind == PASE && i !in ids
      {
        NonEmpty(ids);
        var sid :| sid in ids;
        if live[sid].kind == PASE {
          toRemove := toRemove + {sid};
        }
        ids := ids - {sid};
      }
      ghost var gone := toRemove;
      assert gone == PaseIds(old(Abs()));
      while toRemove != {}
        invariant toRemove <= gone <= old(live).Keys
        invariant live == old(live) - (gone - toRemove) && inUse == old(inUse) - (gone - toRemove)
        invariant Abs() == old(Abs()).(live := live, inUse := inUse)
      {
        NonEmpty(toRemove);
        var sid :| sid in toRemove;
        live := live - {sid};
        var released := ReleaseId(sid);
        assert released.Success?;
        toRemove := toRemove - {sid};
      }
      return Success(());
    }

    method HandleAddNoc(id: int, accepted: bool, admin: int) returns (status: NocStatus)
      requires id in live
      modifies this
      ensures (Abs(), status) == AddNoc(old(Abs()), id, accepted, admin)
    {
      hide FirstFree;
      if !accepted {
        return NotAccepted;
      }
      var index := SearchFree(fabrics.Keys, MAX_FABRIC_INDEX);
      if index.None? {
        return TableFull;
      }
      added := added + 1;
      if live[id].fabric == 0 {
        live := live[id := live[id].(fabric := index.value, owner := added)];
      }
      fabrics := fabrics[index.value := Fabric(added, "")];
      acl := acl + [Owned(AdminEntry(index.value, admin), added)];
      return OK;
    }

    method HandleUpdateFabricLabel(id: int, name: string) returns (status: NocStatus)
      requires id in live
      modifies this
      ensures (Abs(), status) == UpdateLabel(old(Abs()), id, name)
    {
      var indexes := fabrics.Keys;
      while indexes != {}
        invariant indexes <= fabrics.Keys && Abs() == old(Abs())
        invariant forall f | f in fabrics && f !in indexes :: !(fabrics[f].name == name && f != live[id].fabric)
      {
        NonEmpty(indexes);
        var f :| f in indexes;
        if fabrics[f].name == name && f != live[id].fabric {
          return LabelConflict;
        }
        indexes := indexes - {f};
      }
      if live[id].fabric !in fabrics {
        return Crashed;
      }
      fabrics := fabrics[live[id].fabric := fabrics[live[id].fabric].(name := name)];
      return OK;
    }

    method CancelSubscriptionsForFabric(fabric: int)
      modifies this`subscriptions
      ensures subscriptions == old(subscriptions) - SubscriptionsOf(old(Abs()), fabric)
    {
      var ids := subscriptions.Keys;
      var toRemove: set<int> := {};
      while ids != {}
        invariant ids <= subscriptions.Keys && subscriptions == old(subscriptions)
        invariant toRemove == set i | i in subscriptions && subscriptions[i].subscriber.fabric == fabric && i !in ids
      {
        NonEmpty(ids);
        var sid :| sid in ids;
        if subscriptions[sid].subscriber.fabric == fabric {
          toRemove := toRemove + {sid};
        }
        ids := ids - {sid};
      }
      assert toRemove == SubscriptionsOf(old(Abs()), fabric);
      subscriptions := subscriptions - toRemove;
    }

    method HandleRemoveFabric(fabric: int) returns (status: NocStatus)
      modifies this
      ensures (Abs(), status) == RemoveFabric(old(Abs()), fabric)
    {
      if fabric !in fabrics {
        return InvalidFabricIndex;
      }
      fabrics := fabrics - {fabric};
      acl := Without(acl, fabric);
      var ids := live.Keys;
      var tbd: set<int> := {};
      while ids != {}
        invariant ids <= live.Keys && Abs() == old(Abs()).(fabrics := fabrics, acl := acl)
        invariant fabrics == old(fabrics) - {fabric} && acl == Without(old(acl), fabric)
        invariant tbd == set i | i in live && live[i].fabric == fabric && i !in ids
      {
        NonEmpty(ids);
        var sid :| sid in ids;
        if live[sid].fabric == fabric {
          tbd := tbd + {sid};
        }
        ids := ids - {sid};
      }
      assert tbd == SessionsOf(old(Abs()), fabric);
      inUse := inUse - tbd;
      live := live - tbd;
      CancelSubscriptionsForFabric(fabric);
      return OK;
    }

    method HandleSubscribe(id: int, node: int, keep: bool, readable: bool)
      requires id in live
      modifies this`subscriptions
      ensures Abs() == Subscribe(old(Abs()), id, node, keep, readable)
    {
      hide FirstFree;
      var k := Subscriber(live[id].fabric, node);
      if !keep {
        var tbd := set i | i in subscriptions && subscriptions[i].subscriber == k;
        assert tbd == SameSubscriber(old(Abs()), k);
        subscriptions := subscriptions - tbd;
      }
      var sid := SearchFree(subscriptions.Keys, MAX_SUBSCRIPTION_ID);
      if readable && sid.Some? {
        subscriptions := subscriptions[sid.value := Subscription(k, live[id].owner)];
      }
    }
  }
}
