/**
 Outgoing messages: one message in flight per exchange (matter/message/protocol.py), and reports split into
 chunks (matter/interaction_model/interaction_model.py).
 */
module Delivery {

  // ---------------------------------------------------------------------- one message in flight

  datatype Op = Send(exchange: int, message: int) | Release(exchange: int)

  datatype Queues = Queues(inFlight: set<int>, pending: map<int, seq<int>>)

  /** What the outside sees: messages handed over, acknowledgements, messages on the wire. */
  datatype Event = Submitted(exchange: int, message: int) | Released(exchange: int)
    | Transmitted(exchange: int, message: int)

  function PendingOf(q: Queues, x: int): seq<int> {
    if x in q.pending then q.pending[x] else []
  }

  function SendMessage(q: Queues, x: int, m: int): (Queues, seq<Event>) {
    if x in q.inFlight then (q.(pending := q.pending[x := PendingOf(q, x) + [m]]), [Submitted(x, m)])
    else (q.(inFlight := q.inFlight + {x}), [Submitted(x, m), Transmitted(x, m)])
  }

  function ReleaseNext(q: Queues, x: int): (Queues, seq<Event>) {
    var waiting := PendingOf(q, x);
    if waiting != [] then
      (q.(pending := if |waiting| == 1 then q.pending - {x} else q.pending[x := waiting[1..]]),
       [Released(x), Transmitted(x, waiting[0])])
    else
      (q.(inFlight := q.inFlight - {x}), [Released(x)])
  }

  function Step(q: Queues, op: Op): (Queues, seq<Event>) {
    match op case Send(x, m) => SendMessage(q, x, m) case Release(x) => ReleaseNext(q, x)
  }

  function Run(ops: seq<Op>): (Queues, seq<Event>) {
    if ops == [] then (Queues({}, map[]), [])
    else
      var (q, h) := Run(ops[..|ops| - 1]);
      var (r, t) := Step(q, ops[|ops| - 1]);
      (r, h + t)
  }

  class Protocol {
    var inFlight: set<int>
    var pending: map<int, seq<int>>
    ghost var history: seq<Event>

    ghost function Abs(): Queues
      reads this
    {
      Queues(inFlight, pending)
    }

    constructor ()
      ensures Abs() == Queues({}, map[]) && history == []
    {
      inFlight, pending, history := {}, map[], [];
    }

    method SendMessage(x: int, m: int)
      modifies this
      ensures Abs() == Step(old(Abs()), Send(x, m)).0 && history == old(history) + Step(old(Abs()), Send(x, m)).1
    {
      if x in inFlight {
        if x !in pending {
          pending := pending[x := []];
        }
        pending := pending[x := pending[x] + [m]];
        history := history + [Submitted(x, m)];
      } else {
        inFlight := inFlight + {x};
        history := history + [Submitted(x, m), Transmitted(x, m)];
      }
    }

    method ReleaseNextMessage(x: int)
      modifies this
      ensures Abs() == Step(old(Abs()), Release(x)).0 && history == old(history) + Step(old(Abs()), Release(x)).1
    {
      if x in pending && pending[x] != [] {
        var message := pending[x][0];
        pending := pending[x := pending[x][1..]];
        history := history + [Released(x), Transmitted(x, message)];
        if |pending[x]| == 0 {
          pending := pending - {x};
        }
      } else {
        history := history + [Released(x)];
        if x in inFlight {
          inFlight := inFlight - {x};
        }
      }
    }
  }

  /** The messages handed over, or put on the wire, for one exchange. */
  function Handed(h: seq<Event>, x: int): seq<int> {
    if h == [] then []
    else
      var e := h[|h| - 1];
      Handed(h[..|h| - 1], x) + if e.Submitted? && e.exchange == x then [e.message] else []
  }

  function Sent(h: seq<Event>, x: int): seq<int> {
    if h == [] then []
    else
      var e := h[|h| - 1];
      Sent(h[..|h| - 1], x) + if e.Transmitted? && e.exchange == x then [e.message] else []
  }

  /** A message was put on the wire and nothing has been released since. */
  function Busy(h: seq<Event>, x: int): bool {
    if h == [] then false
    else
      var e := h[|h| - 1];
      if e.exchange != x || e.Submitted? then Busy(h[..|h| - 1], x) else e.Transmitted?
  }

  ghost predicate Between(h: seq<Event>, x: int, i: int, j: int) {
    exists k :: 0 <= i < k < j <= |h| && h[k] == Released(x)
  }

  /** Between two transmissions on an exchange there is a release. */
  ghost predicate Alternating(h: seq<Event>, x: int) {
    forall i, j | 0 <= i < j < |h| && h[i].Transmitted? && h[j].Transmitted? && h[i].exchange == x == h[j].exchange ::
      Between(h, x, i, j)
  }

  ghost predicate Spaced(h: seq<Event>, x: int) {
    && Alternating(h, x)
    && (!Busy(h, x) ==> forall i | 0 <= i < |h| && h[i].Transmitted? && h[i].exchange == x :: Between(h, x, i, |h|))
  }

  ghost predicate Ordered(q: Queues, h: seq<Event>, x: int) {
    && Sent(h, x) + PendingOf(q, x) == Handed(h, x)
    && (x in q.pending ==> x in q.inFlight && q.pending[x] != [])
    && (x in q.inFlight <==> Busy(h, x))
  }

  lemma Extend(h: seq<Event>, e: Event, x: int)
    ensures Handed(h + [e], x) == Handed(h, x) + if e.Submitted? && e.exchange == x then [e.message] else []
    ensures Sent(h + [e], x) == Sent(h, x) + if e.Transmitted? && e.exchange == x then [e.message] else []
    ensures Busy(h + [e], x) == if e.exchange != x || e.Submitted? then Busy(h, x) else e.Transmitted?
  {
    assert (h + [e])[..|h|] == h;
  }

  lemma ExtendSpaced(h: seq<Event>, e: Event, x: int)
    requires Spaced(h, x) && (e.Transmitted? && e.exchange == x ==> !Busy(h, x))
    ensures Spaced(h + [e], x)
  {
    var g := h + [e];
    Extend(h, e, x);
    forall i, j | Between(h, x, i, j) ensures Between(g, x, i, j) {
      var k :| 0 <= i < k < j <= |h| && h[k] == Released(x);
      assert g[k] == Released(x);
    }
    forall i | Between(h, x, i, |h|) ensures Between(g, x, i, |g|) {
      var k :| 0 <= i < k < |h| && h[k] == Released(x);
      assert g[k] == Released(x);
    }
    if e == Released(x) {
      forall i | 0 <= i < |h| ensures Between(g, x, i, |g|) {
        assert g[|h|] == Released(x);
      }
    }
    assert forall i | 0 <= i < |h| :: g[i] == h[i];
    hide Between, Busy;
  }

  lemma StepKeeps(q: Queues, h: seq<Event>, op: Op, x: int)
    requires Ordered(q, h, x) && Spaced(h, x)
    ensures Ordered(Step(q, op).0, h + Step(q, op).1, x) && Spaced(h + Step(q, op).1, x)
  {
    hide Spaced, Handed, Sent, Busy;
    var t := Step(q, op).1;
    Extend(h, t[0], x);
    ExtendSpaced(h, t[0], x);
    if |t| == 2 {
      assert h + t == h + [t[0]] + [t[1]];
      Extend(h + [t[0]], t[1], x);
      ExtendSpaced(h + [t[0]], t[1], x);
    } else {
      assert t == [t[0]];
    }
    StepOrders(q, h, op, x);
  }

  lemma SendOrders(q: Queues, h: seq<Event>, y: int, m: int, x: int)
    requires Ordered(q, h, x)
    ensures Ordered(Step(q, Send(y, m)).0, h + Step(q, Send(y, m)).1, x)
  {
    hide Handed, Sent, Busy;
    var t := Step(q, Send(y, m)).1;
    Extend(h, Submitted(y, m), x);
    if y in q.inFlight {
      assert t == [Submitted(y, m)];
    } else {
      assert h + t == h + [Submitted(y, m)] + [Transmitted(y, m)];
      Extend(h + [Submitted(y, m)], Transmitted(y, m), x);
      if y == x { assert PendingOf(q, x) == []; }
    }
  }

  lemma ReleaseOrders(q: Queues, h: seq<Event>, y: int, x: int)
    requires Ordered(q, h, x)
    ensures Ordered(Step(q, Release(y)).0, h + Step(q, Release(y)).1, x)
  {
    hide Handed, Sent, Busy;
    var (r, t) := Step(q, Release(y));
    Extend(h, Released(y), x);
    var waiting := PendingOf(q, y);
    if waiting == [] {
      assert t == [Released(y)];
    } else {
      assert h + t == h + [Released(y)] + [Transmitted(y, waiting[0])];
      Extend(h + [Released(y)], Transmitted(y, waiting[0]), x);
      assert PendingOf(r, y) == waiting[1..];
      if y == x { Shift(Sent(h, x), waiting); }
    }
  }

  lemma Shift(a: seq<int>, b: seq<int>)
    requires b != []
    ensures a + b == a + [b[0]] + b[1..]
  {
  }

  lemma StepOrders(q: Queues, h: seq<Event>, op: Op, x: int)
    requires Ordered(q, h, x)
    ensures Ordered(Step(q, op).0, h + Step(q, op).1, x)
  {
    hide Ordered, SendMessage, ReleaseNext;
    match op
    case Send(y, m) => SendOrders(q, h, y, m, x);
    case Release(y) => ReleaseOrders(q, h, y, x);
  }

  /**
   Over every run and for each exchange: transmitted then pending messages are the submitted ones in order, an
   exchange is in flight exactly while a message on the wire is not released, what is pending waits for that, and a
   release lies between two transmissions.
   */
  lemma {:induction false} RunDelivers(ops: seq<Op>, x: int)
    ensures var (q, h) := Run(ops);
            && Sent(h, x) + PendingOf(q, x) == Handed(h, x)
            && (x in q.pending ==> x in q.inFlight && q.pending[x] != [])
            && (x in q.inFlight <==> Busy(h, x))
            && Spaced(h, x)
  {
    if ops != [] {
      var (q, h) := Run(ops[..|ops| - 1]);
      RunDelivers(ops[..|ops| - 1], x);
      hide Spaced, Handed, Sent, Busy, Step;
      StepKeeps(q, h, ops[|ops| - 1], x);
    }
  }

  /** A message is transmitted as it is submitted exactly when its exchange has nothing on the wire. */
  lemma SentAtOnceIff(ops: seq<Op>, x: int, m: int)
    ensures var h := Run(ops).1;
            Run(ops + [Send(x, m)]).1 == h + if Busy(h, x) then [Submitted(x, m)]
              else [Submitted(x, m), Transmitted(x, m)]
  {
    RunDelivers(ops, x);
    hide Spaced, Handed, Sent, Busy;
    assert (ops + [Send(x, m)])[..|ops|] == ops;
  }

  /** A release transmits the message that has waited longest, if any waits, and nothing else. */
  lemma ReleaseTransmits(ops: seq<Op>, x: int)
    ensures var h := Run(ops).1;
            var n := |Sent(h, x)|;
            n <= |Handed(h, x)|
            && Run(ops + [Release(x)]).1
               == h + if n < |Handed(h, x)| then [Released(x), Transmitted(x, Handed(h, x)[n])] else [Released(x)]
  {
    RunDelivers(ops, x);
    hide Spaced, Handed, Sent, Busy;
    assert (ops + [Release(x)])[..|ops|] == ops;
  }

  function Releases(x: int, n: nat): seq<Op> {
    seq(n, i => Release(x))
  }

  lemma RunAppend(ops: seq<Op>, op: Op)
    ensures Run(ops + [op]).0 == Step(Run(ops).0, op).0
  {
    hide Step;
    assert (ops + [op])[..|ops|] == ops;
  }

  lemma ReleaseShortens(q: Queues, x: int)
    requires PendingOf(q, x) != []
    ensures PendingOf(Step(q, Release(x)).0, x) == PendingOf(q, x)[1..]
  {
  }

  /** As many releases as there are waiting messages put everything submitted on the wire. */
  lemma {:induction false} ReleasesDrain(ops: seq<Op>, x: int, n: nat)
    requires n == |PendingOf(Run(ops).0, x)|
    ensures var (q, h) := Run(ops + Releases(x, n)); PendingOf(q, x) == [] && Sent(h, x) == Handed(h, x)
    decreases n
  {
    hide Run, Step, Sent, Handed, PendingOf, Spaced, Busy;
    if n == 0 {
      assert ops + Releases(x, 0) == ops;
      RunDelivers(ops, x);
      assert Sent(Run(ops).1, x) + [] == Sent(Run(ops).1, x);
    } else {
      RunAppend(ops, Release(x));
      ReleaseShortens(Run(ops).0, x);
      ReleasesDrain(ops + [Release(x)], x, n - 1);
      assert ops + [Release(x)] + Releases(x, n - 1) == ops + Releases(x, n);
    }
  }

  // ---------------------------------------------------------------------- chunks of reports

  const CHUNK_LIMIT := 900

  /** A report and the length of its encoding. */
  datatype Report = Report(content: int, size: nat)

  datatype Chunk = Chunk(attributes: seq<Report>, events: seq<Report>, more: bool, suppress: bool)

  function Size(reports: seq<Report>): nat {
    if reports == [] then 0 else Size(reports[..|reports| - 1]) + reports[|reports| - 1].size
  }

  function Attributes(chunks: seq<Chunk>): seq<Report> {
    if chunks == [] then [] else Attributes(chunks[..|chunks| - 1]) + chunks[|chunks| - 1].attributes
  }

  function Events(chunks: seq<Chunk>): seq<Report> {
    if chunks == [] then [] else Events(chunks[..|chunks| - 1]) + chunks[|chunks| - 1].events
  }

  /** A chunk's reports in the order they are added. */
  function Reports(c: Chunk): seq<Report> {
    c.attributes + c.events
  }

  /** A flushed chunk first reaches 900 octets with its last report. */
  predicate Flushed(c: Chunk) {
    var r := Reports(c);
    c.more && !c.suppress && r != [] && Size(r) >= 900 && Size(r[..|r| - 1]) < 900
  }

  lemma SizeAdd(r: seq<Report>, x: Report)
    ensures Size(r + [x]) == Size(r) + x.size && (r + [x])[..|r|] == r
  {
  }

  lemma Append(chunks: seq<Chunk>, c: Chunk)
    ensures Attributes(chunks + [c]) == Attributes(chunks) + c.attributes
            && Events(chunks + [c]) == Events(chunks) + c.events
  {
    assert (chunks + [c])[..|chunks|] == chunks;
  }

  lemma NoChunks()
    ensures Attributes([]) == [] && Events([]) == [] && Size([]) == 0
  {
  }

  /** The chunks so far and the reports under way are the given reports; every chunk is flushed. */
  ghost predicate Divides(chunks: seq<Chunk>, attributes: seq<Report>, events: seq<Report>, allAttributes: seq<Report>,
                          allEvents: seq<Report>)
  {
    && Attributes(chunks) + attributes == allAttributes && Events(chunks) + events == allEvents
    && (forall i | 0 <= i < |chunks| :: Flushed(chunks[i]))
    && (allAttributes + allEvents == [] ==> chunks == [])
    && (chunks == [] && attributes + events == [] ==> allAttributes + allEvents == [])
  }

  lemma Flush(chunks: seq<Chunk>, attributes: seq<Report>, events: seq<Report>, allAttributes: seq<Report>,
              allEvents: seq<Report>)
    requires Divides(chunks, attributes, events, allAttributes, allEvents)
             && Flushed(Chunk(attributes, events, true, false))
    ensures Divides(chunks + [Chunk(attributes, events, true, false)], [], [], allAttributes, allEvents)
  {
    var c := Chunk(attributes, events, true, false);
    Append(chunks, c);
    assert attributes + events != [];
    hide Attributes, Events, Flushed;
    if allAttributes + allEvents == [] { assert false; }
    assert allAttributes + [] == allAttributes && allEvents + [] == allEvents;
  }

  /** One more report, of either kind, in the chunk under way. */
  lemma Add(chunks: seq<Chunk>, attributes: seq<Report>, events: seq<Report>, allAttributes: seq<Report>,
            allEvents: seq<Report>, r: Report)
    requires Divides(chunks, attributes, events, allAttributes, allEvents)
    ensures Divides(chunks, attributes + [r], events, allAttributes + [r], allEvents)
    ensures Divides(chunks, attributes, events + [r], allAttributes, allEvents + [r])
  {
    hide Attributes, Events, Flushed;
    assert Attributes(chunks) + (attributes + [r]) == allAttributes + [r]
           && Events(chunks) + (events + [r]) == allEvents + [r];
    assert (allAttributes + [r] + allEvents)[|allAttributes|] == r
           && (allAttributes + (allEvents + [r]))[|allAttributes + allEvents|] == r;
    assert (attributes + [r] + events)[|attributes|] == r && (attributes + (events + [r]))[|attributes + events|] == r;
  }

  /** Closes the current chunk when it is large enough. */
  method GenNextMessage(messages: seq<Chunk>, attributes: seq<Report>, events: seq<Report>, length: nat,
                        ghost allAttributes: seq<Report>, ghost allEvents: seq<Report>)
    returns (messages': seq<Chunk>, attributes': seq<Report>, events': seq<Report>, length': nat)
    requires attributes + events != [] && length == Size(attributes + events)
    requires Size((attributes + events)[..|attributes + events| - 1]) < CHUNK_LIMIT
    requires Divides(messages, attributes, events, allAttributes, allEvents)
    ensures Divides(messages', attributes', events', allAttributes, allEvents)
            && length' == Size(attributes' + events') < CHUNK_LIMIT
    ensures events == [] ==> events' == []
  {
    messages', attributes', events', length' := messages, attributes, events, length;
    if length >= CHUNK_LIMIT {
      Flush(messages, attributes, events, allAttributes, allEvents);
      NoChunks();
      hide Divides, Size;
      messages' := messages + [Chunk(attributes, events, true, false)];
      attributes', events', length' := [], [], 0;
    }
  }

  /** What the finished chunks say about the reports. */
  ghost predicate Complete(chunks: seq<Chunk>, suppress: bool) {
    && chunks != [] && (forall i | 0 <= i < |chunks| - 1 :: Flushed(chunks[i]))
    && var last := chunks[|chunks| - 1];
       (last.more ==> Flushed(last))
       && (!last.more ==>
           Size(Reports(last)) < 900 && last.suppress == suppress && (Reports(last) == [] ==> |chunks| == 1))
  }

  lemma Finish(chunks: seq<Chunk>, attributes: seq<Report>, events: seq<Report>, allAttributes: seq<Report>,
               allEvents: seq<Report>, suppress: bool)
    requires Divides(chunks, attributes, events, allAttributes, allEvents) && Size(attributes + events) < CHUNK_LIMIT
    ensures attributes + events == [] && chunks != [] ==>
              Attributes(chunks) == allAttributes && Events(chunks) == allEvents && Complete(chunks, suppress)
    ensures attributes + events != [] || chunks == [] ==>
              var all := chunks + [Chunk(attributes, events, false, suppress)];
              Attributes(all) == allAttributes && Events(all) == allEvents && Complete(all, suppress)
  {
    Append(chunks, Chunk(attributes, events, false, suppress));
    assert attributes + events == [] ==> attributes == [] && events == [];
    hide Attributes, Events, Flushed, Size;
  }

  /**
   Concatenated, the chunks are the reports in order; every flushed chunk first reaches the limit with its last
   report; a chunk that says nothing follows is the last, is below the limit, and is empty only when alone.
   */
  method ChunkReportData(attributeReports: seq<Report>, eventReports: seq<Report>, suppress: bool)
    returns (chunks: seq<Chunk>)
    ensures Attributes(chunks) == attributeReports && Events(chunks) == eventReports
    ensures Complete(chunks, suppress)
  {
    NoChunks();
    hide Size, Attributes, Events, Flushed, Complete;
    chunks := [];
    var attributes, events: seq<Report>, length: nat := [], [], 0;
    for i := 0 to |attributeReports|
      invariant Divides(chunks, attributes, events, attributeReports[..i], [])
      invariant events == [] && length == Size(attributes + events) < CHUNK_LIMIT
    {
      hide Divides;
      var r := attributeReports[i];
      SizeAdd(attributes, r);
      assert attributes + [r] + events == attributes + [r] && attributes + events == attributes;
      assert attributeReports[..i + 1] == attributeReports[..i] + [r];
      Add(chunks, attributes, events, attributeReports[..i], [], r);
      attributes := attributes + [r];
      length := length + r.size;
      chunks, attributes, events, length := GenNextMessage(chunks, attributes, events, length,
                                                           attributeReports[..i + 1], []);
    }
    assert attributeReports[..|attributeReports|] == attributeReports;
    for i := 0 to |eventReports|
      invariant Divides(chunks, attributes, events, attributeReports, eventReports[..i])
      invariant length == Size(attributes + events) < CHUNK_LIMIT
    {
      hide Divides;
      var r := eventReports[i];
      SizeAdd(attributes + events, r);
      assert attributes + (events + [r]) == attributes + events + [r];
      assert eventReports[..i + 1] == eventReports[..i] + [r];
      Add(chunks, attributes, events, attributeReports, eventReports[..i], r);
      events := events + [r];
      length := length + r.size;
      chunks, attributes, events, length := GenNextMessage(chunks, attributes, events, length, attributeReports,
                                                           eventReports[..i + 1]);
    }
    assert eventReports[..|eventReports|] == eventReports;
    Finish(chunks, attributes, events, attributeReports, eventReports, suppress);
    assert attributes + events == [] <==> attributes == [] && events == [];
    hide Divides;
    if |attributes| != 0 || |events| != 0 || |chunks| == 0 {
      chunks := chunks + [Chunk(attributes, events, false, suppress)];
    }
  }
}
