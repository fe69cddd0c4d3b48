/**
 A subscription as a timed automaton (`Subscription` in matter/interaction_model/interaction_model.py). Time is
 real; a report is one atomic step, and an armed timer fires when its time comes.
 */
module Subscriptions {

  /** A subscribed attribute or event key. */
  type Key = int

  datatype Report = Report(time: real, attributes: set<Key>, events: map<Key, seq<int>>)

  /**
   Intervals in whole seconds; `urgent` says of each subscribed event key whether it asks for a report at once.
   `armed` holds every sleeping timer task and its deadline, `timer` is the task the subscription remembers.
   */
  datatype State = State(minimum: nat, maximum: nat, attributes: set<Key>, urgent: map<Key, bool>,
                         lastReport: real, armed: map<nat, real>, timer: nat, created: nat, pendingReport: bool,
                         changed: set<Key>, events: map<Key, seq<int>>)

  datatype Op =
    | Changed(time: real, keys: set<Key>)
    | Happened(time: real, key: Key, event: int)
    | Fired(time: real, task: nat)

  function Elements(keys: seq<Key>): set<Key> {
    set k | k in keys
  }

  function Max(a: int, b: int): int {
    if a < b then b else a
  }

  function Start(minimum: nat, maximum: nat, attributes: set<Key>, urgent: map<Key, bool>, now: real): State {
    State(minimum, maximum, attributes, urgent, now, map[0 := now + Max(minimum, maximum / 2) as real], 0, 1, false, {},
          map k | k in urgent :: [])
  }

  /** A new task is created and remembered; the one remembered before is not cancelled. */
  function Arm(s: State, deadline: real): State {
    s.(armed := s.armed[s.created := deadline], timer := s.created, created := s.created + 1)
  }

  function Cancel(s: State): State {
    s.(armed := s.armed - {s.timer})
  }

  /** Reports everything collected and arms the next timer. */
  function AfterReport(s: State, now: real): (State, seq<Report>) {
    (Arm(s.(lastReport := now, pendingReport := false, changed := {}, events := map k | k in s.events :: []),
         now + Max(s.minimum, s.maximum - 5) as real),
     [Report(now, s.changed, s.events)])
  }

  /** Cancels the timer and reports at once, or as soon as the minimum interval allows. */
  function AfterRequest(s: State, now: real): (State, seq<Report>) {
    if s.pendingReport then (s, [])
    else if now - s.lastReport < s.minimum as real then
      (Arm(Cancel(s).(pendingReport := true), now + (s.minimum as real - (now - s.lastReport))), [])
    else AfterReport(Cancel(s), now)
  }

  function Step(s: State, op: Op): (State, seq<Report>) {
    match op
    case Changed(now, keys) =>
      if keys * s.attributes == {} then (s, []) else AfterRequest(s.(changed := s.changed + keys * s.attributes), now)
    case Happened(now, k, e) =>
      if k !in s.events || k !in s.urgent then (s, [])
      else
        var t := s.(events := s.events[k := s.events[k] + [e]]);
        if s.urgent[k] then AfterRequest(t, now) else (t, [])
    case Fired(now, task) => if task in s.armed then AfterReport(s.(armed := s.armed - {task}), now) else (s, [])
  }

  class Subscription {
    const minimum: nat
    const maximum: nat
    const attributes: set<Key>
    const urgent: map<Key, bool>
    var lastReport: real
    var armed: map<nat, real>
    var timer: nat
    var created: nat
    var pendingReport: bool
    var changed: set<Key>
    var events: map<Key, seq<int>>
    var sent: seq<Report>

    ghost function Abs(): State
      reads this
    {
      State(minimum, maximum, attributes, urgent, lastReport, armed, timer, created, pendingReport, changed, events)
    }

    constructor (minimum: nat, maximum: nat, attributes: set<Key>, urgent: map<Key, bool>, now: real)
      ensures Abs() == Start(minimum, maximum, attributes, urgent, now) && sent == []
    {
      this.minimum, this.maximum, this.attributes, this.urgent := minimum, maximum, attributes, urgent;
      changed := {};
      events := map k | k in urgent :: [];
      armed, timer, created := map[0 := now + Max(minimum, maximum / 2) as real], 0, 1;
      lastReport := now;
      pendingReport := false;
      sent := [];
    }

    method CreateTimer(deadline: real)
      modifies this
      ensures Abs() == Arm(old(Abs()), deadline) && sent == old(sent)
    {
      armed := armed[created := deadline];
      timer := created;
      created := created + 1;
    }

    method TimerFires(now: real, task: nat)
      modifies this
      ensures var (s, r) := Step(old(Abs()), Fired(now, task)); Abs() == s && sent == old(sent) + r
    {
      if task in armed {
        armed := armed - {task};
        SendReport(now);
      }
    }

    /** Runs when the timer fires, and from ReportNow. */
    method SendReport(now: real)
      modifies this
      ensures var (s, r) := AfterReport(old(Abs()), now); Abs() == s && sent == old(sent) + r
    {
      sent := sent + [Report(now, changed, events)];
      changed := {};
      events := map k | k in events :: [];
      CreateTimer(now + Max(minimum, maximum - 5) as real);
      lastReport := now;
      pendingReport := false;
    }

    method ReportNow(now: real)
      modifies this
      ensures var (s, r) := AfterRequest(old(Abs()), now); Abs() == s && sent == old(sent) + r
    {
      if !pendingReport {
        armed := armed - {timer};
        var sinceLast := now - lastReport;
        if sinceLast < minimum as real {
          pendingReport := true;
          CreateTimer(now + (minimum as real - sinceLast));
        } else {
          SendReport(now);
        }
      }
    }

    method AttributesChanged(now: real, keys: seq<Key>)
      modifies this
      ensures var (s, r) := Step(old(Abs()), Changed(now, Elements(keys))); Abs() == s && sent == old(sent) + r
    {
      var notify := false;
      for i := 0 to |keys|
        invariant Abs() == old(Abs()).(changed := changed) && sent == old(sent)
        invariant changed == old(changed) + Elements(keys[..i]) * attributes
        invariant notify <==> Elements(keys[..i]) * attributes != {}
      {
        assert Elements(keys[..i + 1]) == Elements(keys[..i]) + {keys[i]};
        if keys[i] in attributes {
          assert keys[i] in Elements(keys[..i + 1]) * attributes;
          changed := changed + {keys[i]};
          notify := true;
        } else {
          assert Elements(keys[..i + 1]) * attributes == Elements(keys[..i]) * attributes;
        }
      }
      assert keys[..|keys|] == keys;
      if notify {
        ReportNow(now);
      } else {
        assert changed == old(changed);
      }
    }

    method NewEvent(now: real, key: Key, event: int)
      modifies this
      ensures var (s, r) := Step(old(Abs()), Happened(now, key, event)); Abs() == s && sent == old(sent) + r
    {
      if key in events && key in urgent {
        events := events[key := events[key] + [event]];
        if urgent[key] {
          ReportNow(now);
        }
      }
    }
  }

  // ---------------------------------------------------------------------- runs

  /** The state and the reports after a run. */
  function Run(s0: State, ops: seq<Op>): (State, seq<Report>) {
    if ops == [] then (s0, [])
    else
      var (s, log) := Run(s0, ops[..|ops| - 1]);
      var (t, r) := Step(s, ops[|ops| - 1]);
      (t, log + r)
  }

  lemma RunLast(s0: State, ops: seq<Op>)
    requires ops != []
    ensures var (s, log) := Run(s0, ops[..|ops| - 1]);
            var (t, r) := Step(s, ops[|ops| - 1]);
            Run(s0, ops).0 == t && Run(s0, ops).1 == log + r
  {
    hide Step;
  }

  /** Time does not run backwards, nothing happens after a timer's time before it has fired, and it fires then. */
  predicate OnTime(s0: State, ops: seq<Op>) {
    ops != [] ==>
      var before := ops[..|ops| - 1];
      var op := ops[|ops| - 1];
      var s := Run(s0, before).0;
      && OnTime(s0, before)
      && (if before == [] then s0.lastReport <= op.time else before[|before| - 1].time <= op.time)
      && PunctualAt(s, op)
  }

  /** No armed timer's time has passed, and a timer fires exactly at its time. */
  predicate PunctualAt(s: State, op: Op) {
    (forall task | task in s.armed :: op.time <= s.armed[task])
      && (op.Fired? ==> op.task in s.armed && op.time == s.armed[op.task])
  }

  function Now(s0: State, ops: seq<Op>): real {
    if ops == [] then s0.lastReport else ops[|ops| - 1].time
  }

  /** Exactly the remembered task is armed. */
  predicate OneTimer(s: State) {
    s.timer < s.created && s.armed.Keys == {s.timer}
  }

  /** When the remembered task fires. */
  function Deadline(s: State): real {
    if s.timer in s.armed then s.armed[s.timer] else s.lastReport
  }

  /** One timer is armed, between the two intervals; what has changed waits for it only until the minimum interval. */
  ghost predicate Armed(s: State, now: real) {
    && OneTimer(s)
    && s.lastReport <= now <= Deadline(s)
    && s.lastReport + s.minimum as real <= Deadline(s) <= s.lastReport + Max(s.minimum, s.maximum) as real
    && (s.pendingReport ==> Deadline(s) == s.lastReport + s.minimum as real)
    && (s.changed != {} ==> s.pendingReport)
    && (forall k | k in s.events && s.events[k] != [] && k in s.urgent && s.urgent[k] :: s.pendingReport)
    && s.events.Keys == s.urgent.Keys
  }

  lemma StartArmed(minimum: nat, maximum: nat, attributes: set<Key>, urgent: map<Key, bool>, now: real)
    ensures Armed(Start(minimum, maximum, attributes, urgent, now), now)
  {
  }

  /** A new task after the old one was cancelled or has fired. */
  lemma Rearmed(s: State, deadline: real)
    requires s.armed == map[]
    ensures OneTimer(Arm(s, deadline)) && Deadline(Arm(s, deadline)) == deadline
  {
  }

  lemma CancelOnly(s: State)
    requires OneTimer(s)
    ensures Cancel(s).armed == map[]
  {
    assert Cancel(s).armed.Keys == {};
  }

  lemma ReportArmed(s: State, now: real)
    requires s.events.Keys == s.urgent.Keys && s.armed == map[]
    ensures Armed(AfterReport(s, now).0, now)
  {
    Rearmed(s.(lastReport := now, pendingReport := false, changed := {}, events := map k | k in s.events :: []),
            now + Max(s.minimum, s.maximum - 5) as real);
    hide OneTimer, Deadline;
  }

  lemma RequestArmed(s: State, now: real)
    requires OneTimer(s) && s.lastReport <= now <= Deadline(s) && s.events.Keys == s.urgent.Keys
    requires s.lastReport + s.minimum as real <= Deadline(s) <= s.lastReport + Max(s.minimum, s.maximum) as real
    requires s.pendingReport ==> Deadline(s) == s.lastReport + s.minimum as real
    ensures Armed(AfterRequest(s, now).0, now)
  {
    CancelOnly(s);
    if !s.pendingReport {
      if now - s.lastReport < s.minimum as real {
        Rearmed(Cancel(s).(pendingReport := true), now + (s.minimum as real - (now - s.lastReport)));
      } else {
        ReportArmed(Cancel(s), now);
      }
    }
    hide AfterReport, OneTimer, Deadline;
  }

  lemma StepArmed(s: State, now: real, op: Op)
    requires Armed(s, now) && now <= op.time && PunctualAt(s, op)
    ensures Armed(Step(s, op).0, op.time)
  {
    assert op.time <= Deadline(s);
    match op
    case Changed(t, keys) => RequestArmed(s.(changed := s.changed + keys * s.attributes), t);
    case Happened(t, k, e) => if k in s.events { RequestArmed(s.(events := s.events[k := s.events[k] + [e]]), t); }
    case Fired(t, task) => CancelOnly(s); ReportArmed(Cancel(s), t);
    hide AfterReport, AfterRequest;
  }

  predicate IsStart(s: State) {
    s == Start(s.minimum, s.maximum, s.attributes, s.urgent, s.lastReport)
  }

  lemma Constant(s: State, op: Op)
    ensures var t := Step(s, op).0;
    t.minimum == s.minimum && t.maximum == s.maximum && t.attributes == s.attributes && t.urgent == s.urgent
  {
  }

  lemma {:induction false} RunArmed(s0: State, ops: seq<Op>)
    requires IsStart(s0) && OnTime(s0, ops)
    ensures var s := Run(s0, ops).0;
            && Armed(s, Now(s0, ops))
            && s.minimum == s0.minimum && s.maximum == s0.maximum && s.attributes == s0.attributes
            && s.urgent == s0.urgent
  {
    if ops == [] {
      StartArmed(s0.minimum, s0.maximum, s0.attributes, s0.urgent, s0.lastReport);
    } else {
      var before := ops[..|ops| - 1];
      RunArmed(s0, before);
      hide Step, Armed, Start;
      StepArmed(Run(s0, before).0, Now(s0, before), ops[|ops| - 1]);
      Constant(Run(s0, before).0, ops[|ops| - 1]);
    }
  }

  /** The time of the n-th report; the start counts as report 0. */
  function ReportTime(s0: State, log: seq<Report>, n: nat): real
    requires n <= |log|
  {
    if n == 0 then s0.lastReport else log[n - 1].time
  }

  lemma StepLog(s: State, op: Op)
    ensures |Step(s, op).1| <= 1
    ensures Step(s, op).1 == [] ==> Step(s, op).0.lastReport == s.lastReport
    ensures Step(s, op).1 != [] ==> Step(s, op).1[0].time == op.time == Step(s, op).0.lastReport
  {
  }

  /** A report is sent no earlier than the minimum interval, and no later than the larger interval, after the last. */
  lemma StepGap(s: State, now: real, op: Op)
    requires Armed(s, now) && now <= op.time && PunctualAt(s, op) && Step(s, op).1 != []
    ensures s.minimum as real <= op.time - s.lastReport <= Max(s.minimum, s.maximum) as real
  {
  }

  /** Consecutive reports are at least the minimum and at most the larger interval apart. */
  lemma {:induction false} ReportGaps(s0: State, ops: seq<Op>, n: nat)
    requires IsStart(s0) && OnTime(s0, ops) && n < |Run(s0, ops).1|
    ensures var log := Run(s0, ops).1;
            s0.minimum as real <= ReportTime(s0, log, n + 1) - ReportTime(s0, log, n)
              <= Max(s0.minimum, s0.maximum) as real
  {
    var before, op := ops[..|ops| - 1], ops[|ops| - 1];
    var (s, log) := Run(s0, before);
    RunArmed(s0, before);
    LastReportIs(s0, before);
    StepLog(s, op);
    if n < |log| {
      ReportGaps(s0, before, n);
    } else {
      StepGap(s, Now(s0, before), op);
    }
    hide Step, Armed;
  }

  lemma {:induction false} LastReportIs(s0: State, ops: seq<Op>)
    ensures var (s, log) := Run(s0, ops); s.lastReport == ReportTime(s0, log, |log|)
  {
    if ops != [] {
      LastReportIs(s0, ops[..|ops| - 1]);
      StepLog(Run(s0, ops[..|ops| - 1]).0, ops[|ops| - 1]);
      hide Step;
    }
  }

  // ---------------------------------------------------------------------- nothing is lost or reported twice

  predicate Touches(s0: State, op: Op, k: Key) {
    op.Changed? && k in op.keys && k in s0.attributes
  }

  /** Operation j changes key k while report n is the next to come. */
  ghost predicate ChangedBefore(s0: State, ops: seq<Op>, n: nat, j: nat, k: Key) {
    j < |ops| && Touches(s0, ops[j], k) && |Run(s0, ops[..j]).1| == n
  }

  ghost predicate Turn(s0: State, ops: seq<Op>, n: nat, k: Key) {
    exists j: nat :: ChangedBefore(s0, ops, n, j, k)
  }

  lemma StepChanged(s: State, op: Op, k: Key)
    ensures var (t, r) := Step(s, op);
            var all := k in s.changed || Touches(s, op, k);
            if r == [] then k in t.changed <==> all else t.changed == {} && (k in r[0].attributes <==> all)
  {
    if Touches(s, op, k) { assert k in op.keys * s.attributes; }
  }

  /** What is still to be reported, and what each report carried, are exactly the changes made in its turn. */
  lemma {:induction false} ReportsExactly(s0: State, ops: seq<Op>, n: nat, k: Key)
    requires s0.changed == {} && n <= |Run(s0, ops).1|
    ensures var (s, log) := Run(s0, ops);
            (if n < |log| then k in log[n].attributes else k in s.changed) <==> Turn(s0, ops, n, k)
    ensures Run(s0, ops).0.attributes == s0.attributes
  {
    if ops != [] {
      var before, op := ops[..|ops| - 1], ops[|ops| - 1];
      var (s, log) := Run(s0, before);
      StepLog(s, op);
      StepChanged(s, op, k);
      Constant(s, op);
      hide Step;
      if n <= |log| { ReportsExactly(s0, before, n, k); } else { ReportsExactly(s0, before, |log|, k); }
      TurnsExtend(s0, ops, n, k);
      if n == |log| + 1 { LaterTurn(s0, ops, n); }
    }
  }

  lemma TurnsExtend(s0: State, ops: seq<Op>, n: nat, k: Key)
    requires ops != []
    ensures Turn(s0, ops, n, k) <==> Turn(s0, ops[..|ops| - 1], n, k) || ChangedBefore(s0, ops, n, |ops| - 1, k)
  {
    hide Run;
    var before := ops[..|ops| - 1];
    forall j: nat | j < |before| ensures ChangedBefore(s0, ops, n, j, k) <==> ChangedBefore(s0, before, n, j, k) {
      assert ops[..j] == before[..j];
    }
  }

  lemma {:induction false} LogGrows(s0: State, ops: seq<Op>, j: nat)
    requires j <= |ops|
    ensures |Run(s0, ops[..j]).1| <= |Run(s0, ops).1|
    decreases |ops|
  {
    hide Step;
    if j < |ops| {
      LogGrows(s0, ops[..|ops| - 1], j);
      assert ops[..|ops| - 1][..j] == ops[..j];
    } else {
      assert ops[..j] == ops;
    }
  }

  lemma LaterTurn(s0: State, ops: seq<Op>, n: nat)
    requires ops != [] && n > |Run(s0, ops[..|ops| - 1]).1|
    ensures forall j: nat, k :: !ChangedBefore(s0, ops, n, j, k)
  {
    var before := ops[..|ops| - 1];
    forall j: nat, k | j < |ops| ensures !ChangedBefore(s0, ops, n, j, k) {
      LogGrows(s0, before, j);
      assert ops[..j] == before[..j];
    }
    hide Run;
  }

  // ---------------------------------------------------------------------- when a change is reported

  function Later(a: real, b: real): real {
    if a < b then b else a
  }

  /** The operation asks for a report: a subscribed attribute changed or an urgent event happened. */
  predicate Asks(s0: State, op: Op) {
    match op
    case Changed(_, keys) => keys * s0.attributes != {}
    case Happened(_, k, _) => k in s0.urgent && s0.urgent[k]
    case Fired(_, _) => false
  }

  /** The report asked for is sent at once, or scheduled for the end of the minimum interval. */
  lemma StepAsked(s: State, now: real, op: Op)
    requires Armed(s, now) && now <= op.time && PunctualAt(s, op) && Asks(s, op)
    ensures var due := Later(op.time, s.lastReport + s.minimum as real);
            var (t, r) := Step(s, op);
            if r != [] then r[0].time == due else t.pendingReport && Deadline(t) == due
  {
  }

  /** It is sent at once exactly when none is scheduled and the minimum interval is over. */
  lemma SentAtOnceIff(s: State, now: real, op: Op)
    requires Armed(s, now) && now <= op.time && PunctualAt(s, op) && Asks(s, op)
    ensures Step(s, op).1 != [] <==> !s.pendingReport && op.time >= s.lastReport + s.minimum as real
  {
  }

  /** A timer that fires sends a report. */
  lemma TimerReports(s: State, op: Op)
    requires PunctualAt(s, op) && op.Fired?
    ensures |Step(s, op).1| == 1 && Step(s, op).1[0].time == s.armed[op.task]
  {
  }

  /** A scheduled report stays scheduled until its time. */
  lemma StepScheduled(s: State, op: Op)
    requires s.pendingReport && OneTimer(s) && PunctualAt(s, op)
    ensures var (t, r) := Step(s, op);
            if r != [] then r[0].time == Deadline(s) else t.pendingReport && Deadline(t) == Deadline(s)
  {
  }

  /** Report n is sent at time `due`, or is still scheduled for it. */
  predicate Due(s: State, log: seq<Report>, n: nat, due: real) {
    if |log| > n then log[n].time == due else s.pendingReport && Deadline(s) == due
  }

  lemma DueStays(s: State, log: seq<Report>, op: Op, n: nat, due: real)
    requires Due(s, log, n, due) && n <= |log| && OneTimer(s) && PunctualAt(s, op)
    ensures Due(Step(s, op).0, log + Step(s, op).1, n, due)
  {
    if |log| == n { StepScheduled(s, op); }
    StepLog(s, op);
    hide Step, Deadline, OneTimer, PunctualAt;
  }

  lemma DueStarts(s: State, log: seq<Report>, now: real, op: Op)
    requires Armed(s, now) && now <= op.time && PunctualAt(s, op) && Asks(s, op)
    ensures Due(Step(s, op).0, log + Step(s, op).1, |log|, Later(op.time, s.lastReport + s.minimum as real))
  {
    StepAsked(s, now, op);
    StepLog(s, op);
    hide Step, Deadline, Armed, PunctualAt, Later;
  }

  lemma ArmedOnce(s: State, now: real)
    requires Armed(s, now)
    ensures OneTimer(s)
  {
  }

  lemma OnTimeLast(s0: State, ops: seq<Op>)
    requires OnTime(s0, ops) && ops != []
    ensures var before := ops[..|ops| - 1];
            OnTime(s0, before) && PunctualAt(Run(s0, before).0, ops[|ops| - 1])
              && Now(s0, before) <= ops[|ops| - 1].time
  {
    hide Run, PunctualAt;
  }

  lemma SameAsks(s: State, t: State, op: Op)
    requires s.attributes == t.attributes && s.urgent == t.urgent
    ensures Asks(s, op) <==> Asks(t, op)
  {
  }

  lemma DueAtLast(s0: State, ops: seq<Op>)
    requires IsStart(s0) && ops != [] && OnTime(s0, ops) && Asks(s0, ops[|ops| - 1])
    ensures var (s, log) := Run(s0, ops[..|ops| - 1]);
            Due(Run(s0, ops).0, Run(s0, ops).1, |log|, Later(ops[|ops| - 1].time, s.lastReport + s0.minimum as real))
  {
    hide Run, OnTime, Now, IsStart, PunctualAt, Step, Asks, Deadline, Armed, Due, Later, OneTimer;
    var before := ops[..|ops| - 1];
    var (s, log) := Run(s0, before);
    OnTimeLast(s0, ops);
    RunArmed(s0, before);
    RunLast(s0, ops);
    SameAsks(s0, s, ops[|ops| - 1]);
    DueStarts(s, log, Now(s0, before), ops[|ops| - 1]);
  }

  lemma DueCarried(s0: State, ops: seq<Op>, n: nat, due: real)
    requires IsStart(s0) && ops != [] && OnTime(s0, ops) && n <= |Run(s0, ops[..|ops| - 1]).1|
    requires Due(Run(s0, ops[..|ops| - 1]).0, Run(s0, ops[..|ops| - 1]).1, n, due)
    ensures Due(Run(s0, ops).0, Run(s0, ops).1, n, due)
  {
    hide Run, OnTime, Now, IsStart, PunctualAt, Step, Asks, Deadline, Armed, Due, Later, OneTimer;
    var before := ops[..|ops| - 1];
    var (s, log) := Run(s0, before);
    OnTimeLast(s0, ops);
    RunArmed(s0, before);
    RunLast(s0, ops);
    ArmedOnce(s, Now(s0, before));
    DueStays(s, log, ops[|ops| - 1], n, due);
  }

  /** When a report asked for by operation j is due. */
  function DueTime(s0: State, ops: seq<Op>, j: nat): real
    requires j < |ops|
  {
    Later(ops[j].time, Run(s0, ops[..j]).0.lastReport + s0.minimum as real)
  }

  /**
   The next report after a change or an urgent event is sent exactly at the later of that time and the end of
   the minimum interval, or is still scheduled for it.
   */
  lemma {:induction false} ReportedWhenDue(s0: State, ops: seq<Op>, j: nat)
    requires IsStart(s0) && OnTime(s0, ops) && j < |ops| && Asks(s0, ops[j])
    ensures Due(Run(s0, ops).0, Run(s0, ops).1, |Run(s0, ops[..j]).1|, DueTime(s0, ops, j))
    decreases |ops|
  {
    hide Run, Now, IsStart, PunctualAt, Asks, Due, Later;
    if j == |ops| - 1 {
      DueAtLast(s0, ops);
    } else {
      var before := ops[..|ops| - 1];
      assert before[..j] == ops[..j];
      ReportedWhenDue(s0, before, j);
      LogGrows(s0, before, j);
      DueCarried(s0, ops, |Run(s0, ops[..j]).1|, DueTime(s0, ops, j));
    }
  }

  // ---------------------------------------------------------------------- reports nobody asked for

  /** Operation j asks for a report while report n is the next to come. */
  ghost predicate AskedBefore(s0: State, ops: seq<Op>, n: nat, j: nat) {
    j < |ops| && Asks(s0, ops[j]) && |Run(s0, ops[..j]).1| == n
  }

  ghost predicate Quiet(s0: State, ops: seq<Op>, n: nat) {
    forall j: nat :: !AskedBefore(s0, ops, n, j)
  }

  /** How long after the report before, or after the start, a report comes that nobody asks for. */
  function QuietGap(s0: State, n: nat): int {
    var period := if n == 0 then s0.maximum / 2 else s0.maximum - 5;
    if period < s0.minimum then s0.minimum else period
  }

  lemma StepQuiet(s: State, now: real, op: Op)
    requires Armed(s, now) && now <= op.time && PunctualAt(s, op)
    ensures var (t, r) := Step(s, op);
            && (r == [] && !Asks(s, op) ==> Deadline(t) == Deadline(s) && t.lastReport == s.lastReport)
            && (r != [] && !Asks(s, op) ==> r[0].time == Deadline(s))
            && (r != [] ==> Deadline(t) == op.time + QuietGap(s, 1) as real)
  {
  }

  lemma QuietEarlier(s0: State, ops: seq<Op>, n: nat)
    requires ops != [] && Quiet(s0, ops, n)
    ensures Quiet(s0, ops[..|ops| - 1], n)
    ensures |Run(s0, ops[..|ops| - 1]).1| == n ==> !Asks(s0, ops[|ops| - 1])
  {
    hide Run, Asks;
    var before := ops[..|ops| - 1];
    forall j: nat ensures !AskedBefore(s0, before, n, j) {
      assert j < |before| ==> before[..j] == ops[..j] && !AskedBefore(s0, ops, n, j);
    }
    assert !AskedBefore(s0, ops, n, |ops| - 1);
  }

  /**
   No report comes early: while nothing asks for one, the next report is scheduled for, and comes, 5 seconds
   before the maximum interval has passed since the last, or half of it after the start, but not before the
   minimum interval.
   */
  lemma {:induction false} QuietReports(s0: State, ops: seq<Op>, n: nat)
    requires IsStart(s0) && OnTime(s0, ops) && n <= |Run(s0, ops).1| && Quiet(s0, ops, n)
    ensures var (s, log) := Run(s0, ops);
            (if n < |log| then log[n].time else Deadline(s)) == ReportTime(s0, log, n) + QuietGap(s0, n) as real
  {
    if ops != [] {
      var before, op := ops[..|ops| - 1], ops[|ops| - 1];
      var (s, log) := Run(s0, before);
      OnTimeLast(s0, ops);
      RunArmed(s0, before);
      RunLast(s0, ops);
      StepLog(s, op);
      StepQuiet(s, Now(s0, before), op);
      SameAsks(s0, s, op);
      LastReportIs(s0, before);
      QuietEarlier(s0, ops, n);
      hide Run, OnTime, Now, Step, Asks, Deadline, Armed, PunctualAt, Quiet;
      if n <= |log| { QuietReports(s0, before, n); }
    }
  }

  // ---------------------------------------------------------------------- events

  /** The events of one key carried by the reports. */
  function Carried(log: seq<Report>, k: Key): seq<int> {
    if log == [] then []
    else
      var r := log[|log| - 1];
      Carried(log[..|log| - 1], k) + if k in r.events then r.events[k] else []
  }

  function Raised(ops: seq<Op>, k: Key): seq<int> {
    if ops == [] then []
    else
      var op := ops[|ops| - 1];
      Raised(ops[..|ops| - 1], k) + if op.Happened? && op.key == k then [op.event] else []
  }

  lemma StepEvents(s: State, op: Op, k: Key)
    requires k in s.urgent && s.events.Keys == s.urgent.Keys
    ensures var (t, r) := Step(s, op);
            var all := s.events[k] + if op.Happened? && op.key == k then [op.event] else [];
            && t.events.Keys == t.urgent.Keys == s.urgent.Keys
            && if r == [] then t.events[k] == all
               else t.events[k] == [] && |r| == 1 && k in r[0].events && r[0].events[k] == all
  {
  }

  lemma CarriedAppend(log: seq<Report>, r: seq<Report>, k: Key)
    requires |r| <= 1
    ensures Carried(log + r, k) == Carried(log, k) + if r != [] && k in r[0].events then r[0].events[k] else []
  {
    if r == [] {
      assert log + r == log;
    } else {
      assert (log + r)[..|log|] == log;
    }
  }

  lemma Moved(carried: seq<int>, waiting: seq<int>, more: seq<int>)
    ensures carried + (waiting + more) == carried + waiting + more
    ensures carried + (waiting + more) + [] == carried + waiting + more && carried + [] == carried
  {
  }

  /** Every event of a subscribed key is carried once, in order, or still waits. */
  lemma {:induction false} EventsExactly(s0: State, ops: seq<Op>, k: Key)
    requires IsStart(s0) && k in s0.urgent
    ensures var (s, log) := Run(s0, ops);
            s.events.Keys == s.urgent.Keys == s0.urgent.Keys && Carried(log, k) + s.events[k] == Raised(ops, k)
  {
    if ops != [] {
      var before, op := ops[..|ops| - 1], ops[|ops| - 1];
      var (s, log) := Run(s0, before);
      EventsExactly(s0, before, k);
      StepEvents(s, op, k);
      RunLast(s0, ops);
      CarriedAppend(log, Step(s, op).1, k);
      hide Step, Start, Run, Carried;
      Moved(Carried(log, k), s.events[k], if op.Happened? && op.key == k then [op.event] else []);
    }
  }
}
