/**
 Reception without a greatest counter: unencrypted messages, and the encrypted ones whose counters wrap around
 (`MessageReceptionState` in matter/message/message_layer.py).
 */
module ReplayCircular {
  import opened Bytes
  import opened Replay
  import BitStruct

  /** How such a message is received: `group` for the encrypted ones. */
  function Received(s: State, counter: int, group: bool): (State, Verdict) {
    if group then Encrypted(s, counter, false) else Unencrypted(s, counter)
  }

  function Run(s: State, counters: seq<int>, group: bool): (r: (State, seq<Verdict>))
    ensures |r.1| == |counters|
  {
    if counters == [] then (s, [])
    else
      var (t, vs) := Run(s, counters[..|counters| - 1], group);
      var (u, v) := Received(t, counters[|counters| - 1], group);
      (u, vs + [v])
  }

  /**
   A reference receiver that does not wrap around: `top` counts on from the first counter, `start`, and stands for
   the maximum modulo 2^32; `seen` are the places accepted through the window.
   */
  datatype Unwrapped = Unwrapped(start: int, top: int, seen: set<int>)

  /** How far on one counter is from another, around the space of 2^32. */
  function Distance(from: int, to: int): (d: int)
    ensures 0 <= d < 0x1_0000_0000
  {
    (to - from) % 0x1_0000_0000
  }

  /** How far above the maximum a counter may lie: half the space, or all of it but the window. */
  function Reach(group: bool): int {
    if group then 0x8000_0000 else 0xFFFF_FFE0
  }

  /** A counter that lies this far ahead of the top. */
  function ReceiveAhead(r: Unwrapped, ahead: int, group: bool): (Unwrapped, Verdict) {
    var place := r.top - (0x1_0000_0000 - ahead);
    if 0 < ahead < Reach(group) then (r.(top := r.top + ahead), NewMaximum)
    else if ahead > 0 && place >= r.top - 32 && place >= r.start && place !in r.seen then
      (r.(seen := r.seen + {place}), Window)
    else (r, Duplicate)
  }

  function Receive(r: Unwrapped, counter: int, group: bool): (Unwrapped, Verdict) {
    ReceiveAhead(r, Distance(r.top, counter), group)
  }

  function UnwrappedRun(start: int, counters: seq<int>, group: bool): (r: (Unwrapped, seq<Verdict>))
    ensures |r.1| == |counters|
  {
    if counters == [] then (Unwrapped(start, start, {}), [])
    else
      var (t, vs) := UnwrappedRun(start, counters[..|counters| - 1], group);
      var (u, v) := Receive(t, counters[|counters| - 1], group);
      (u, vs + [v])
  }

  /** The counters of the message format. */
  predicate Counters(counters: seq<int>) {
    forall i | 0 <= i < |counters| :: 0 <= counters[i] < 0x1_0000_0000
  }

  /** Bit p stands for the place top - 1 - p; the 32 places before the start are marked from the beginning. */
  ghost predicate Represents(s: State, r: Unwrapped) {
    && s.max == r.top % 0x1_0000_0000 && r.start <= r.top
    && (forall q | q in r.seen :: r.start <= q < r.top)
    && forall p: nat :: BitStruct.Bit(s.bitmap, p) <==>
       (r.start - 32 <= r.top - 1 - p < r.start || r.top - 1 - p in r.seen)
  }

  /** Distances from the top are distances from the maximum. */
  lemma DistancesAgree(top: int, counter: int)
    ensures (counter - top % M) % M == (counter - top) % M
    ensures (top % M - counter) % M == (top - counter) % M && (top % M - 1 - counter) % M == (top - 1 - counter) % M
    ensures (top + (counter - top) % M) % M == counter % M
  {
    var q := top / M;
    assert top == q * M + top % M;
    Shifted(counter - top, q);
    Shifted(top % M - counter, q);
    Shifted(top % M - 1 - counter, q);
    var k := (counter - top) / M;
    assert top + (counter - top) % M == counter - k * M;
    Shifted(counter - k * M, k);
  }

  lemma Shifted(x: int, q: int)
    ensures (x + q * M) % M == x % M
  {
  }

  /** Forward and backward distances add up to the whole space. */
  lemma Backwards(x: int)
    ensures x % M == 0 ==> -x % M == 0
    ensures x % M != 0 ==> -x % M == M - x % M && (-x - 1) % M == M - x % M - 1
  {
    var k := x / M;
    assert x == k * M + x % M;
    Shifted(-(x % M), -k);
    Shifted(-(x % M) - 1, -k);
    Shifted(-(x % M), 1);
    Shifted(-(x % M) - 1, 1);
  }

  lemma Advanced(s: State, r: Unwrapped, counter: int)
    requires Represents(s, r) && 0 <= counter < M
    ensures Represents(UpdateMax(s, counter), r.(top := r.top + (counter - r.top) % M))
  {
    var d := (counter - r.top) % M;
    DistancesAgree(r.top, counter);
    forall p: nat
      ensures BitStruct.Bit(ShiftLeft(s.bitmap, d), p) <==>
              (r.start - 32 <= r.top + d - 1 - p < r.start || r.top + d - 1 - p in r.seen)
    {
      BitOfShift(s.bitmap, d, p);
      hide BitStruct.Bit, ShiftLeft;
      if p >= d {
        assert r.top - 1 - (p - d) == r.top + d - 1 - p;
      }
    }
  }

  lemma Marked(s: State, r: Unwrapped, p: nat)
    requires Represents(s, r) && r.start <= r.top - 1 - p
    ensures Represents(s.(bitmap := SetBit(s.bitmap, p)), r.(seen := r.seen + {r.top - 1 - p}))
  {
    forall q: nat ensures BitStruct.Bit(SetBit(s.bitmap, p), q) <==> q == p || BitStruct.Bit(s.bitmap, q) {
      BitOfSet(s.bitmap, p, q);
    }
    hide BitStruct.Bit, SetBit;
  }

  lemma Equal(top: int, counter: int)
    requires 0 <= counter < M
    ensures counter == top % M <==> (counter - top) % M == 0
  {
    DistancesAgree(top, counter);
    var k := top % M;
    assert -M < counter - k < M;
  }

  /** How a counter is received, told by how far it lies ahead of the top. */
  lemma ReceivedBy(s: State, top: int, counter: int, group: bool, ahead: int)
    requires s.max == top % M && 0 <= counter < M && ahead == (counter - top) % M
    ensures Received(s, counter, group) ==
            if ahead == 0 then (s, Duplicate)
            else if ahead >= 0xFFFF_FFE0 then
              if BitStruct.Bit(s.bitmap, M - ahead - 1) then (s, Duplicate)
              else (s.(bitmap := SetBit(s.bitmap, M - ahead - 1)), Window)
            else if ahead < Reach(group) then (UpdateMax(s, counter), NewMaximum)
            else (s, Duplicate)
  {
    hide BitStruct.Bit, SetBit, UpdateMax;
    DistancesAgree(top, counter);
    Equal(top, counter);
    Backwards(counter - top);
    assert -(counter - top) == top - counter && -(counter - top) - 1 == top - 1 - counter;
    assert ahead != 0 ==> (s.max - 1 - counter) % M == M - ahead - 1 && (s.max - counter) % M == M - ahead;
  }

  lemma StepRepresents(s: State, r: Unwrapped, counter: int, group: bool)
    requires Represents(s, r) && 0 <= counter < 0x1_0000_0000
    ensures Represents(Received(s, counter, group).0, Receive(r, counter, group).0)
    ensures Received(s, counter, group).1 == Receive(r, counter, group).1
  {
    var ahead := (counter - r.top) % M;
    ReceivedBy(s, r.top, counter, group, ahead);
    if 0 < ahead < Reach(group) { Advanced(s, r, counter); }
    if ahead >= 0xFFFF_FFE0 {
      var p := M - ahead - 1;
      assert BitStruct.Bit(s.bitmap, p) <==> (r.start - 32 <= r.top - 1 - p < r.start || r.top - 1 - p in r.seen);
      if r.start <= r.top - 1 - p { Marked(s, r, p); }
    }
    hide Represents, Received, BitStruct.Bit, SetBit, UpdateMax;
  }

  lemma InitialRepresents(start: int)
    requires 0 <= start < M
    ensures Represents(Initial(start), Unwrapped(start, start, {}))
  {
    forall p: nat ensures BitStruct.Bit(Initial(start).bitmap, p) <==> p < 32 {
      BitOfOnes(32, p);
    }
    hide BitStruct.Bit, Pow2;
  }

  /** Over every run the bitmap receiver gives the verdicts of the receiver that does not wrap around. */
  lemma {:induction false} RunRefines(start: int, counters: seq<int>, group: bool)
    requires 0 <= start < 0x1_0000_0000 && Counters(counters)
    ensures Represents(Run(Initial(start), counters, group).0, UnwrappedRun(start, counters, group).0)
    ensures Run(Initial(start), counters, group).1 == UnwrappedRun(start, counters, group).1
  {
    hide Represents, Received, Receive, Initial;
    if counters == [] {
      InitialRepresents(start);
    } else {
      var n := |counters| - 1;
      RunRefines(start, counters[..n], group);
      StepRepresents(Run(Initial(start), counters[..n], group).0, UnwrappedRun(start, counters[..n], group).0,
                     counters[n], group);
    }
  }

  /** Places accepted through the window are places of counters that were received. */
  ghost predicate PlacesReceived(r: Unwrapped, counters: seq<int>) {
    forall q | q in r.seen :: exists i :: 0 <= i < |counters| && counters[i] == q % 0x1_0000_0000
  }

  lemma ReceivedPlaces(r: Unwrapped, counters: seq<int>, counter: int, group: bool)
    requires PlacesReceived(r, counters) && 0 <= counter < M
    ensures PlacesReceived(Receive(r, counter, group).0, counters + [counter])
  {
    var all := counters + [counter];
    var ahead := (counter - r.top) % M;
    DistancesAgree(r.top, counter);
    Shifted(r.top + ahead, -1);
    assert all[|counters|] == counter && (r.top - (M - ahead)) % M == counter;
    forall q | q in r.seen ensures exists i :: 0 <= i < |all| && all[i] == q % M {
      var i :| 0 <= i < |counters| && counters[i] == q % M;
      assert all[i] == q % M;
    }
  }

  lemma {:induction false} RunPlaces(start: int, counters: seq<int>, group: bool)
    requires Counters(counters)
    ensures PlacesReceived(UnwrappedRun(start, counters, group).0, counters)
  {
    hide PlacesReceived, Receive;
    if counters == [] {
      assert PlacesReceived(Unwrapped(start, start, {}), []) by { NoPlaces(start); }
    } else {
      var n := |counters| - 1;
      RunPlaces(start, counters[..n], group);
      ReceivedPlaces(UnwrappedRun(start, counters[..n], group).0, counters[..n], counters[n], group);
      assert counters[..n] + [counters[n]] == counters;
    }
  }

  lemma NoPlaces(start: int)
    ensures PlacesReceived(Unwrapped(start, start, {}), [])
  {
  }

  /** How far the maximum has moved over the run. */
  function Moved(start: int, counters: seq<int>, group: bool): int {
    UnwrappedRun(start, counters, group).0.top - start
  }

  lemma {:induction false} StartKept(start: int, counters: seq<int>, group: bool)
    ensures UnwrappedRun(start, counters, group).0.start == start
  {
    if counters != [] { StartKept(start, counters[..|counters| - 1], group); }
  }

  lemma Extended(counters: seq<int>, counter: int)
    requires Counters(counters + [counter])
    ensures Counters(counters) && 0 <= counter < 0x1_0000_0000
  {
    var all := counters + [counter];
    assert all[|counters|] == counter && forall i | 0 <= i < |counters| :: counters[i] == all[i];
  }

  /** The next verdict is the reference receiver's. */
  lemma NextVerdict(start: int, counters: seq<int>, group: bool, counter: int)
    requires 0 <= start < 0x1_0000_0000 && Counters(counters) && 0 <= counter < 0x1_0000_0000
    ensures var s, r := Run(Initial(start), counters, group).0, UnwrappedRun(start, counters, group).0;
            && s.max == r.top % M && r.start == start && PlacesReceived(r, counters)
            && Received(s, counter, group).1 == Receive(r, counter, group).1
  {
    RunRefines(start, counters, group);
    RunPlaces(start, counters, group);
    StartKept(start, counters, group);
    hide Run, UnwrappedRun, Received, Receive, PlacesReceived;
    StepRepresents(Run(Initial(start), counters, group).0, UnwrappedRun(start, counters, group).0, counter, group);
  }

  /** The place a counter would take in the window is the counter's. */
  lemma PlaceFree(r: Unwrapped, counters: seq<int>, counter: int, ahead: int)
    requires PlacesReceived(r, counters) && 0 <= counter < M && counter !in counters
             && ahead == Distance(r.top, counter)
    ensures r.top - (M - ahead) !in r.seen
  {
    PlaceIs(r.top, counter, ahead);
    hide Distance;
  }

  lemma PlaceIs(top: int, counter: int, ahead: int)
    requires 0 <= counter < M && ahead == Distance(top, counter)
    ensures (top - (M - ahead)) % M == counter
  {
    DistancesAgree(top, counter);
    Shifted(top + ahead, -1);
  }

  lemma Distances(top: int, counter: int, max: int)
    requires max == top % M
    ensures var ahead := Distance(top, counter);
            Distance(max, counter) == ahead && Distance(counter, max) == if ahead == 0 then 0 else M - ahead
  {
    DistancesAgree(top, counter);
    Backwards(counter - top);
    assert -(counter - top) == top - counter;
  }

  /**
   A counter not received before is accepted exactly when it lies above the maximum, up to half the space in the
   encrypted mode and everywhere outside the window in the unencrypted one, or among the 32 below it that are not
   below where the session started.
   */
  lemma FreshAcceptedIff(start: int, counters: seq<int>, group: bool, counter: int)
    requires 0 <= start < 0x1_0000_0000 && Counters(counters + [counter]) && counter !in counters
    ensures var s := Run(Initial(start), counters, group).0;
            !Received(s, counter, group).1.Duplicate? <==>
            || 1 <= Distance(s.max, counter) < (if group then 0x8000_0000 else 0xFFFF_FFE0)
            || (1 <= Distance(counter, s.max) <= 32 && Distance(counter, s.max) <= Moved(start, counters, group))
  {
    Extended(counters, counter);
    NextVerdict(start, counters, group, counter);
    var s, r := Run(Initial(start), counters, group).0, UnwrappedRun(start, counters, group).0;
    hide Run, UnwrappedRun, Received, PlacesReceived, Distance;
    PlaceFree(r, counters, counter, Distance(r.top, counter));
    Distances(r.top, counter, s.max);
  }

  /** How far the maximum moves with one more counter. */
  lemma MovedBy(start: int, counters: seq<int>, group: bool, counter: int)
    requires 0 <= start < 0x1_0000_0000 && Counters(counters + [counter])
    ensures var s := Run(Initial(start), counters, group).0;
            Moved(start, counters + [counter], group) == Moved(start, counters, group)
              + if Received(s, counter, group).1.NewMaximum? then Distance(s.max, counter) else 0
    ensures Moved(start, [], group) == 0
  {
    var all := counters + [counter];
    assert all[..|counters|] == counters && all[|counters|] == counter && |all| - 1 == |counters|;
    Extended(counters, counter);
    NextVerdict(start, counters, group, counter);
    var s, r := Run(Initial(start), counters, group).0, UnwrappedRun(start, counters, group).0;
    assert UnwrappedRun(start, all, group).0 == Receive(r, counter, group).0;
    hide Run, UnwrappedRun, Received, PlacesReceived, Distance;
    Distances(r.top, counter, s.max);
  }
}
