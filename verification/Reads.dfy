/**
 Attribute reads, concrete and wildcard (`read_attribute` in matter/interaction_model/interaction_model.py,
 `Attribute` and `get_attribute_data` in matter/interaction_model/cluster.py). What an attribute's getter
 returns or raises for a given session is the function `get`.
 */
module Reads {
  import opened Wrappers
  import Acl

  datatype Attribute = Attribute(id: int, hasGetter: bool, hasSetter: bool, writeOnly: bool, privilege: Acl.Privilege,
                                 changesOmitted: bool, fixed: bool, isList: bool)
  {
    predicate Supported() {
      hasGetter || hasSetter
    }

    predicate ReadSupported() {
      hasGetter && !writeOnly
    }
  }

  /** Tables are in insertion order. */
  datatype Cluster = Cluster(id: int, version: int, attributes: seq<Attribute>)

  datatype Endpoint = Endpoint(id: int, deviceTypes: set<int>, servers: seq<Cluster>)

  datatype Filter = Filter(node: Option<int>, endpoint: Option<int>, cluster: Option<int>, version: int)

  datatype Path = Path(endpoint: int, cluster: int, attribute: int)

  datatype StatusCode = UnsupportedNode | UnsupportedAccess | UnsupportedEndpoint | UnsupportedCluster
    | UnsupportedAttribute | UnsupportedRead

  /** A report names what it is about; the value is absent when a list element of a non-list is asked for. */
  datatype Report = Data(path: Path, version: int, value: Option<int>) | Status(code: StatusCode)

  /** Reports in order, and the subscription keys registered. */
  datatype Out = Out(reports: seq<Report>, keys: set<Path>)

  datatype Request = Request(endpoints: seq<Endpoint>, acl: seq<Acl.Entry>, subject: Acl.Subject, filters: seq<Filter>,
                             listIndex: Option<int>, subscribed: bool, get: (Path, Option<int>) -> Result<int>)

  const NOTHING := Out([], {})

  function Join(a: Out, b: Out): Out {
    Out(a.reports + b.reports, a.keys + b.keys)
  }

  function FindEndpoint(es: seq<Endpoint>, id: int): Option<Endpoint> {
    if es == [] then None else if es[0].id == id then Some(es[0]) else FindEndpoint(es[1..], id)
  }

  function FindCluster(cs: seq<Cluster>, id: int): Option<Cluster> {
    if cs == [] then None else if cs[0].id == id then Some(cs[0]) else FindCluster(cs[1..], id)
  }

  function FindAttribute(attrs: seq<Attribute>, id: int): Option<Attribute> {
    if attrs == [] then None else if attrs[0].id == id then Some(attrs[0]) else FindAttribute(attrs[1..], id)
  }

  /** The last filter with a node for this cluster, or zero. */
  function DataVersion(filters: seq<Filter>, endpoint: int, cluster: int): int {
    if filters == [] then 0
    else
      var f := filters[|filters| - 1];
      if f.node.Some? && f.endpoint == Some(endpoint) && f.cluster == Some(cluster) then f.version
      else DataVersion(filters[..|filters| - 1], endpoint, cluster)
  }

  function Granted(r: Request, endpoint: int, cluster: int): Result<set<Acl.Privilege>> {
    var e := FindEndpoint(r.endpoints, endpoint);
    Acl.Scan(r.acl, r.subject, Acl.Object(endpoint, cluster, if e.Some? then e.value.deviceTypes else {}),
             Acl.Commissioner(r.subject))
  }

  /** `get_attribute_data`: the value and the key registered. */
  function AttributeData(r: Request, p: Path, version: int, a: Attribute): Result<Out> {
    if r.listIndex.Some? && !a.isList then Success(Out([Data(p, version, None)], {}))
    else
      var v :- r.get(p, r.listIndex);
      Success(Out([Data(p, version, Some(v))], if r.subscribed && !a.changesOmitted && !a.fixed then {p} else {}))
  }

  function JustStatus(code: StatusCode): Result<Out> {
    Success(Out([Status(code)], {}))
  }

  function ReadConcrete(r: Request, p: Path): Result<Out> {
    var granted :- Granted(r, p.endpoint, p.cluster);
    if Acl.View !in granted then JustStatus(UnsupportedAccess)
    else
      var e := FindEndpoint(r.endpoints, p.endpoint);
      if e.None? then JustStatus(UnsupportedEndpoint)
      else
        var c := FindCluster(e.value.servers, p.cluster);
        if c.None? then JustStatus(UnsupportedCluster)
        else
          var a := FindAttribute(c.value.attributes, p.attribute);
          if a.None? then JustStatus(UnsupportedAttribute)
          else if a.value.privilege !in granted then JustStatus(UnsupportedAccess)
          else if !a.value.ReadSupported() then JustStatus(UnsupportedRead)
          else if DataVersion(r.filters, p.endpoint, p.cluster) >= c.value.version then Success(NOTHING)
          else AttributeData(r, p, c.value.version, a.value)
  }

  // ---------------------------------------------------------------------- the wildcard read

  function Pairs(e: int, cs: seq<Cluster>): (r: seq<(int, int)>)
    ensures |r| == |cs| && forall i | 0 <= i < |cs| :: r[i] == (e, cs[i].id)
  {
    seq(|cs|, i requires 0 <= i < |cs| => (e, cs[i].id))
  }

  /** The endpoint and cluster pairs to look at; a named endpoint must exist when the cluster is not named. */
  function PossiblePaths(r: Request, es: seq<int>, cluster: Option<int>): Result<seq<(int, int)>> {
    if es == [] then Success([])
    else
      var e := FindEndpoint(r.endpoints, es[0]);
      var here :- if cluster.Some? then Success([(es[0], cluster.value)])
                  else if e.None? then Failure(KeyError) else Success(Pairs(es[0], e.value.servers));
      var rest :- PossiblePaths(r, es[1..], cluster);
      Success(here + rest)
  }

  function Ids(es: seq<Endpoint>): (r: seq<int>)
    ensures |r| == |es| && forall i | 0 <= i < |es| :: r[i] == es[i].id
  {
    seq(|es|, i requires 0 <= i < |es| => es[i].id)
  }

  function SupportedOnly(attrs: seq<Attribute>): seq<Attribute> {
    if attrs == [] then [] else (if attrs[0].Supported() then [attrs[0]] else []) + SupportedOnly(attrs[1..])
  }

  function ReadAttributes(r: Request, e: int, c: Cluster, granted: set<Acl.Privilege>,
                          attrs: seq<Attribute>): Result<Out>
  {
    if attrs == [] then Success(NOTHING)
    else
      var a := attrs[0];
      var here :- if a.privilege in granted && a.ReadSupported()
        then AttributeData(r, Path(e, c.id, a.id), c.version, a) else Success(NOTHING);
      var rest :- ReadAttributes(r, e, c, granted, attrs[1..]);
      Success(Join(here, rest))
  }

  function Wanted(c: Cluster, attribute: Option<int>): seq<Attribute> {
    if attribute.None? then SupportedOnly(c.attributes)
    else var a := FindAttribute(c.attributes, attribute.value); if a.Some? then [a.value] else []
  }

  function ReadPair(r: Request, e: int, c: int, attribute: Option<int>): Result<Out> {
    var ep := FindEndpoint(r.endpoints, e);
    var cl := if ep.Some? then FindCluster(ep.value.servers, c) else None;
    if cl.None? then Success(NOTHING)
    else
      var granted :- Granted(r, e, c);
      if Acl.View !in granted || DataVersion(r.filters, e, c) >= cl.value.version then Success(NOTHING)
      else ReadAttributes(r, e, cl.value, granted, Wanted(cl.value, attribute))
  }

  function ReadPairs(r: Request, pairs: seq<(int, int)>, attribute: Option<int>): Result<Out> {
    if pairs == [] then Success(NOTHING)
    else
      var here :- ReadPair(r, pairs[0].0, pairs[0].1, attribute);
      var rest :- ReadPairs(r, pairs[1..], attribute);
      Success(Join(here, rest))
  }

  function ReadWildcard(r: Request, endpoint: Option<int>, cluster: Option<int>, attribute: Option<int>): Result<Out> {
    var pairs :- PossiblePaths(r, if endpoint.None? then Ids(r.endpoints) else [endpoint.value], cluster);
    ReadPairs(r, pairs, attribute)
  }

  // ---------------------------------------------------------------------- the loops

  method ReadAttribute(r: Request, node: Option<int>, endpoint: Option<int>, cluster: Option<int>,
                       attribute: Option<int>)
    returns (out: Result<Out>)
    ensures out == if node.Some? then JustStatus(UnsupportedNode)
                   else if endpoint.Some? && cluster.Some? && attribute.Some?
                     then ReadConcrete(r, Path(endpoint.value, cluster.value, attribute.value))
                   else ReadWildcard(r, endpoint, cluster, attribute)
  {
    hide ReadConcrete, ReadPair, Granted;
    if node.Some? {
      return JustStatus(UnsupportedNode);
    }
    if endpoint.Some? && cluster.Some? && attribute.Some? {
      out := ReadConcrete(r, Path(endpoint.value, cluster.value, attribute.value));
      return;
    }
    var es := if endpoint.None? then Ids(r.endpoints) else [endpoint.value];
    var pairs :- CollectPairs(r, es, cluster);
    var result := NOTHING;
    AfterJoin(result, result, ReadPairs(r, pairs, attribute));
    assert pairs[0..] == pairs;
    for i := 0 to |pairs|
      invariant ReadPairs(r, pairs, attribute) == After(result, ReadPairs(r, pairs[i..], attribute))
    {
      ghost var rest := pairs[i..];
      assert rest[0] == pairs[i] && rest[1..] == pairs[i + 1..];
      var here :- ReadOnePair(r, pairs[i].0, pairs[i].1, attribute);
      AfterJoin(result, here, ReadPairs(r, pairs[i + 1..], attribute));
      result := Join(result, here);
    }
    AfterJoin(result, result, Success(NOTHING));
    return Success(result);
  }

  /** What was read before, then what follows. */
  function After(before: Out, rest: Result<Out>): Result<Out> {
    var o :- rest; Success(Join(before, o))
  }

  lemma AfterJoin(a: Out, b: Out, rest: Result<Out>)
    ensures After(a, After(b, rest)) == After(Join(a, b), rest)
    ensures After(NOTHING, rest) == rest && Join(a, NOTHING) == a
  {
    assert a.reports + [] == a.reports;
    if rest.Success? {
      var o := rest.value;
      assert a.reports + (b.reports + o.reports) == a.reports + b.reports + o.reports;
      assert a.keys + (b.keys + o.keys) == a.keys + b.keys + o.keys;
      assert [] + o.reports == o.reports && {} + o.keys == o.keys;
    }
  }

  method CollectPairs(r: Request, es: seq<int>, cluster: Option<int>) returns (out: Result<seq<(int, int)>>)
    ensures out == PossiblePaths(r, es, cluster)
  {
    var pairs: seq<(int, int)> := [];
    AppendedTwice(pairs, pairs, PossiblePaths(r, es, cluster));
    assert es[0..] == es;
    for i := 0 to |es|
      invariant PossiblePaths(r, es, cluster) == Appended(pairs, PossiblePaths(r, es[i..], cluster))
    {
      assert es[i..][1..] == es[i + 1..];
      if cluster.Some? {
        AppendedTwice(pairs, [(es[i], cluster.value)], PossiblePaths(r, es[i + 1..], cluster));
        pairs := pairs + [(es[i], cluster.value)];
      } else {
        var e := FindEndpoint(r.endpoints, es[i]);
        if e.None? {
          return Failure(KeyError);
        }
        AppendedTwice(pairs, Pairs(es[i], e.value.servers), PossiblePaths(r, es[i + 1..], cluster));
        pairs := pairs + Pairs(es[i], e.value.servers);
      }
    }
    AppendedTwice(pairs, [], Success([]));
    return Success(pairs);
  }

  method ReadOnePair(r: Request, e: int, c: int, attribute: Option<int>) returns (out: Result<Out>)
    ensures out == ReadPair(r, e, c, attribute)
  {
    hide FindEndpoint, FindCluster, DataVersion, Wanted, Granted, AttributeData;
    var ep := FindEndpoint(r.endpoints, e);
    if ep.None? || FindCluster(ep.value.servers, c).None? {
      return Success(NOTHING);
    }
    var granted :- Granted(r, e, c);
    if Acl.View !in granted {
      return Success(NOTHING);
    }
    var cl := FindCluster(ep.value.servers, c).value;
    if DataVersion(r.filters, e, c) >= cl.version {
      return Success(NOTHING);
    }
    var attrs := Wanted(cl, attribute);
    var result := NOTHING;
    AfterJoin(result, result, ReadAttributes(r, e, cl, granted, attrs));
    assert attrs[0..] == attrs;
    for i := 0 to |attrs|
      invariant ReadAttributes(r, e, cl, granted, attrs) == After(result, ReadAttributes(r, e, cl, granted, attrs[i..]))
    {
      var a := attrs[i];
      ghost var rest := attrs[i..];
      assert rest[0] == a && rest[1..] == attrs[i + 1..];
      AfterJoin(result, NOTHING, ReadAttributes(r, e, cl, granted, attrs[i + 1..]));
      if a.privilege !in granted {
        continue;
      }
      if !a.ReadSupported() {
        continue;
      }
      var here :- AttributeData(r, Path(e, cl.id, a.id), cl.version, a);
      AfterJoin(result, here, ReadAttributes(r, e, cl, granted, attrs[i + 1..]));
      result := Join(result, here);
    }
    AfterJoin(result, result, Success(NOTHING));
    return Success(result);
  }

  // ---------------------------------------------------------------------- wildcard reads are concrete reads

  /** The data results of a read; status results are dropped. */
  function DataOf(o: Out): Out {
    Out(OnlyData(o.reports), o.keys)
  }

  function OnlyData(reports: seq<Report>): seq<Report> {
    if reports == [] then [] else (if reports[0].Data? then [reports[0]] else []) + OnlyData(reports[1..])
  }

  /** The concrete reads of the paths one after the other, keeping data results. */
  function ReadEach(r: Request, paths: seq<Path>): Result<Out> {
    if paths == [] then Success(NOTHING)
    else
      var here :- ReadConcrete(r, paths[0]);
      var rest :- ReadEach(r, paths[1..]);
      Success(Join(DataOf(here), rest))
  }

  /** All attributes of a cluster, whether supported or not, or the named one. */
  function AttributePaths(r: Request, e: int, c: int, attribute: Option<int>): seq<Path> {
    if attribute.Some? then [Path(e, c, attribute.value)]
    else
      var ep := FindEndpoint(r.endpoints, e);
      var cl := if ep.Some? then FindCluster(ep.value.servers, c) else None;
      if cl.None? then [] else PathsOf(e, c, cl.value.attributes)
  }

  function PathsOf(e: int, c: int, attrs: seq<Attribute>): seq<Path> {
    if attrs == [] then [] else [Path(e, c, attrs[0].id)] + PathsOf(e, c, attrs[1..])
  }

  function Expand(r: Request, pairs: seq<(int, int)>, attribute: Option<int>): seq<Path> {
    if pairs == [] then [] else AttributePaths(r, pairs[0].0, pairs[0].1, attribute) + Expand(r, pairs[1..], attribute)
  }

  /** Attribute tables are dictionaries. */
  predicate DistinctAttributes(attrs: seq<Attribute>) {
    forall i, j | 0 <= i < j < |attrs| :: attrs[i].id != attrs[j].id
  }

  predicate DictionaryTables(r: Request) {
    forall e, c | e in r.endpoints && c in e.servers :: DistinctAttributes(c.attributes)
  }

  /**
   The access list can be scanned for the pair, or the wildcard and the concrete reads agree on scanning it. A
   wildcard scans it for every cluster it finds, a concrete read for every path, found or not.
   */
  predicate ScansAlike(r: Request, e: int, c: int, attribute: Option<int>) {
    var ep := FindEndpoint(r.endpoints, e);
    var cl := if ep.Some? then FindCluster(ep.value.servers, c) else None;
    || Granted(r, e, c).Success?
    || if cl.Some? then attribute.Some? || cl.value.attributes != [] else attribute.None?
  }

  lemma {:induction false} ReadEachConcat(r: Request, a: seq<Path>, b: seq<Path>)
    ensures ReadEach(r, a + b) == (var x :- ReadEach(r, a); After(x, ReadEach(r, b)))
  {
    hide ReadConcrete, DataOf;
    if a == [] {
      assert a + b == b;
      AfterJoin(NOTHING, NOTHING, ReadEach(r, b));
    } else {
      assert (a + b)[1..] == a[1..] + b;
      ReadEachConcat(r, a[1..], b);
      var here := ReadConcrete(r, a[0]);
      if here.Success? && ReadEach(r, a[1..]).Success? {
        AfterJoin(DataOf(here.value), ReadEach(r, a[1..]).value, ReadEach(r, b));
      }
    }
  }

  lemma {:induction false} FindEndpointIn(es: seq<Endpoint>, id: int)
    requires FindEndpoint(es, id).Some?
    ensures FindEndpoint(es, id).value in es && FindEndpoint(es, id).value.id == id
  {
    if es[0].id != id { FindEndpointIn(es[1..], id); }
  }

  lemma {:induction false} FindClusterIn(cs: seq<Cluster>, id: int)
    requires FindCluster(cs, id).Some?
    ensures FindCluster(cs, id).value in cs && FindCluster(cs, id).value.id == id
  {
    if cs[0].id != id { FindClusterIn(cs[1..], id); }
  }

  lemma {:induction false} FindAttributeAt(attrs: seq<Attribute>, i: nat)
    requires i < |attrs| && DistinctAttributes(attrs)
    ensures FindAttribute(attrs, attrs[i].id) == Some(attrs[i])
  {
    if i > 0 { FindAttributeAt(attrs[1..], i - 1); }
  }

  lemma {:induction false} FindAttributeId(attrs: seq<Attribute>, id: int)
    ensures FindAttribute(attrs, id).Some? ==> FindAttribute(attrs, id).value.id == id
  {
    if attrs != [] { FindAttributeId(attrs[1..], id); }
  }

  /** What a concrete read of an existing cluster keeps: the attribute's data, or nothing. */
  function Kept(r: Request, p: Path, c: Cluster, granted: set<Acl.Privilege>): Result<Out> {
    var a := FindAttribute(c.attributes, p.attribute);
    if Acl.View in granted && a.Some? && a.value.privilege in granted && a.value.ReadSupported()
       && DataVersion(r.filters, p.endpoint, p.cluster) < c.version
    then AttributeData(r, p, c.version, a.value) else Success(NOTHING)
  }

  lemma DataOfData(r: Request, p: Path, version: int, a: Attribute)
    requires AttributeData(r, p, version, a).Success?
    ensures DataOf(AttributeData(r, p, version, a).value) == AttributeData(r, p, version, a).value
  {
    var o := AttributeData(r, p, version, a).value;
    assert o.reports[1..] == [];
    assert OnlyData(o.reports) == [o.reports[0]] + OnlyData([]);
  }

  lemma ConcreteKeeps(r: Request, p: Path)
    requires Granted(r, p.endpoint, p.cluster).Success?
    ensures var e := FindEndpoint(r.endpoints, p.endpoint);
            var c := if e.Some? then FindCluster(e.value.servers, p.cluster) else None;
            var kept := if c.Some? then Kept(r, p, c.value, Granted(r, p.endpoint, p.cluster).value)
                        else Success(NOTHING);
            if ReadConcrete(r, p).Success? then kept == Success(DataOf(ReadConcrete(r, p).value))
            else kept == ReadConcrete(r, p)
  {
    hide Granted, FindEndpoint, FindCluster, FindAttribute, DataVersion, AttributeData;
    var e := FindEndpoint(r.endpoints, p.endpoint);
    var c := if e.Some? then FindCluster(e.value.servers, p.cluster) else None;
    var a := if c.Some? then FindAttribute(c.value.attributes, p.attribute) else None;
    if a.Some? && AttributeData(r, p, c.value.version, a.value).Success? {
      DataOfData(r, p, c.value.version, a.value);
    }
    forall code ensures DataOf(Out([Status(code)], {})) == NOTHING {
      assert OnlyData([Status(code)]) == [] + OnlyData([]);
    }
  }

  /** One more path read. */
  lemma ReadEachStep(r: Request, p: Path, rest: seq<Path>, kept: Result<Out>)
    requires if ReadConcrete(r, p).Success? then kept == Success(DataOf(ReadConcrete(r, p).value))
             else kept == ReadConcrete(r, p)
    ensures ReadEach(r, [p] + rest) == (var x :- kept; After(x, ReadEach(r, rest)))
  {
    hide ReadConcrete, DataOf;
    assert ([p] + rest)[1..] == rest;
  }

  ghost predicate Located(r: Request, e: int, c: Cluster) {
    var ep := FindEndpoint(r.endpoints, e);
    ep.Some? && FindCluster(ep.value.servers, c.id) == Some(c)
  }

  lemma {:induction false} AttributesSame(r: Request, e: int, c: Cluster, granted: set<Acl.Privilege>, i: nat)
    requires Located(r, e, c) && DistinctAttributes(c.attributes) && i <= |c.attributes|
    requires Granted(r, e, c.id) == Success(granted)
    ensures ReadEach(r, PathsOf(e, c.id, c.attributes[i..]))
            == if Acl.View in granted && DataVersion(r.filters, e, c.id) < c.version
               then ReadAttributes(r, e, c, granted, SupportedOnly(c.attributes[i..])) else Success(NOTHING)
    decreases |c.attributes| - i
  {
    hide FindAttribute, FindCluster, FindEndpoint, DataVersion, AttributeData, Granted, ReadConcrete;
    if i < |c.attributes| {
      var a := c.attributes[i];
      var p := Path(e, c.id, a.id);
      assert c.attributes[i..][1..] == c.attributes[i + 1..];
      AttributesSame(r, e, c, granted, i + 1);
      FindAttributeAt(c.attributes, i);
      ConcreteKeeps(r, p);
      var kept := Kept(r, p, c, granted);
      ReadEachStep(r, p, PathsOf(e, c.id, c.attributes[i + 1..]), kept);
      SupportedHead(r, e, c, granted, c.attributes[i..]);
      hide ReadEach, PathsOf, SupportedOnly, ReadAttributes;
      AfterJoin(NOTHING, NOTHING, ReadEach(r, PathsOf(e, c.id, c.attributes[i + 1..])));
    }
  }

  /** Leaving out unsupported attributes changes nothing: they cannot be read. */
  lemma SupportedHead(r: Request, e: int, c: Cluster, granted: set<Acl.Privilege>, attrs: seq<Attribute>)
    requires attrs != []
    ensures var a := attrs[0];
            var here := if a.privilege in granted && a.ReadSupported()
                        then AttributeData(r, Path(e, c.id, a.id), c.version, a) else Success(NOTHING);
            ReadAttributes(r, e, c, granted, SupportedOnly(attrs))
            == (var x :- here; After(x, ReadAttributes(r, e, c, granted, SupportedOnly(attrs[1..]))))
  {
    hide AttributeData;
    var rest := SupportedOnly(attrs[1..]);
    AfterJoin(NOTHING, NOTHING, ReadAttributes(r, e, c, granted, rest));
    if attrs[0].Supported() {
      assert SupportedOnly(attrs)[1..] == rest;
    } else {
      assert [] + rest == rest;
    }
  }

  lemma NamedSame(r: Request, e: int, c: Cluster, granted: set<Acl.Privilege>, id: int)
    requires Located(r, e, c) && Granted(r, e, c.id) == Success(granted)
    ensures ReadEach(r, [Path(e, c.id, id)])
            == if Acl.View in granted && DataVersion(r.filters, e, c.id) < c.version
               then ReadAttributes(r, e, c, granted, Wanted(c, Some(id))) else Success(NOTHING)
  {
    hide FindAttribute, FindCluster, FindEndpoint, DataVersion, AttributeData, Granted, ReadConcrete;
    var p := Path(e, c.id, id);
    ConcreteKeeps(r, p);
    FindAttributeId(c.attributes, id);
    var kept := Kept(r, p, c, granted);
    ReadEachStep(r, p, [], kept);
    assert [p] + [] == [p];
    if kept.Success? { AfterJoin(kept.value, NOTHING, Success(NOTHING)); }
    var a := FindAttribute(c.attributes, id);
    if a.Some? {
      assert [a.value][1..] == [];
      AfterJoin(NOTHING, NOTHING, Success(NOTHING));
    }
  }

  lemma NoClusterSame(r: Request, p: Path)
    requires Granted(r, p.endpoint, p.cluster).Success?
    requires var e := FindEndpoint(r.endpoints, p.endpoint); e.Some? ==> FindCluster(e.value.servers, p.cluster).None?
    ensures ReadEach(r, [p]) == Success(NOTHING)
  {
    hide FindEndpoint, FindCluster, Granted, ReadConcrete;
    ConcreteKeeps(r, p);
    ReadEachStep(r, p, [], Success(NOTHING));
    AfterJoin(NOTHING, NOTHING, Success(NOTHING));
    assert [p] + [] == [p];
  }

  /** Without a scan both raise nothing; with one they raise what the scan raises. */
  lemma ScanFailure(r: Request, e: int, c: int, attribute: Option<int>)
    requires Granted(r, e, c).Failure?
    ensures ReadPair(r, e, c, attribute) == ReadEach(r, AttributePaths(r, e, c, attribute))
            <==> ScansAlike(r, e, c, attribute)
  {
    hide FindEndpoint, FindCluster, Granted, ReadAttributes, DataVersion;
    var ep := FindEndpoint(r.endpoints, e);
    var cl := if ep.Some? then FindCluster(ep.value.servers, c) else None;
    var paths := AttributePaths(r, e, c, attribute);
    if paths != [] {
      assert paths[0].endpoint == e && paths[0].cluster == c;
      assert ReadConcrete(r, paths[0]).Failure? && ReadConcrete(r, paths[0]).error == Granted(r, e, c).error;
    }
  }

  /** Reading a pair is reading its attributes one by one exactly when both scan the list or it can be scanned. */
  lemma PairSameIff(r: Request, e: int, c: int, attribute: Option<int>)
    requires DictionaryTables(r)
    ensures ReadPair(r, e, c, attribute) == ReadEach(r, AttributePaths(r, e, c, attribute))
            <==> ScansAlike(r, e, c, attribute)
  {
    var ep := FindEndpoint(r.endpoints, e);
    var cl := if ep.Some? then FindCluster(ep.value.servers, c) else None;
    if Granted(r, e, c).Failure? {
      ScanFailure(r, e, c, attribute);
    } else if cl.Some? {
      FindEndpointIn(r.endpoints, e);
      FindClusterIn(ep.value.servers, c);
      var granted := Granted(r, e, c).value;
      hide FindEndpoint, FindCluster, Granted, ReadEach, ReadAttributes, PathsOf, SupportedOnly, DistinctAttributes;
      if attribute.Some? {
        NamedSame(r, e, cl.value, granted, attribute.value);
      } else {
        AttributesSame(r, e, cl.value, granted, 0);
        assert cl.value.attributes[0..] == cl.value.attributes;
      }
    } else if attribute.Some? {
      NoClusterSame(r, Path(e, c, attribute.value));
    }
  }

  lemma {:induction false} PairsSame(r: Request, pairs: seq<(int, int)>, attribute: Option<int>)
    requires DictionaryTables(r) && forall p | p in pairs :: ScansAlike(r, p.0, p.1, attribute)
    ensures ReadPairs(r, pairs, attribute) == ReadEach(r, Expand(r, pairs, attribute))
  {
    hide ReadPair, AttributePaths, DictionaryTables, ScansAlike;
    if pairs != [] {
      PairSameIff(r, pairs[0].0, pairs[0].1, attribute);
      PairsSame(r, pairs[1..], attribute);
      ReadEachConcat(r, AttributePaths(r, pairs[0].0, pairs[0].1, attribute), Expand(r, pairs[1..], attribute));
      hide ReadEach;
    }
  }

  /** A named endpoint is missing and the cluster is a wildcard. */
  predicate MissingEndpoint(r: Request, endpoint: Option<int>, cluster: Option<int>) {
    endpoint.Some? && cluster.None? && FindEndpoint(r.endpoints, endpoint.value).None?
  }

  lemma {:induction false} KnownIds(es: seq<Endpoint>, i: nat)
    requires i < |es|
    ensures FindEndpoint(es, es[i].id).Some?
  {
    if i > 0 { KnownIds(es[1..], i - 1); }
  }

  lemma {:induction false} PathsPossible(r: Request, es: seq<int>, cluster: Option<int>)
    ensures PossiblePaths(r, es, cluster) == Failure(KeyError) || PossiblePaths(r, es, cluster).Success?
    ensures PossiblePaths(r, es, cluster).Failure? <==>
            cluster.None? && exists i :: 0 <= i < |es| && FindEndpoint(r.endpoints, es[i]).None?
  {
    hide FindEndpoint;
    if es != [] {
      PathsPossible(r, es[1..], cluster);
      if i :| 0 <= i < |es| && FindEndpoint(r.endpoints, es[i]).None? {
        if i > 0 { assert es[1..][i - 1] == es[i]; }
      }
    }
  }

  /** The pairs a wildcard looks at. */
  function LookedAt(r: Request, endpoint: Option<int>, cluster: Option<int>): Result<seq<(int, int)>> {
    PossiblePaths(r, if endpoint.None? then Ids(r.endpoints) else [endpoint.value], cluster)
  }

  /** The concrete paths a wildcard stands for. */
  function Expanded(r: Request, endpoint: Option<int>, cluster: Option<int>, attribute: Option<int>): Result<seq<Path>>
  {
    var pairs :- LookedAt(r, endpoint, cluster);
    Success(Expand(r, pairs, attribute))
  }

  /**
   A wildcard read is the concrete reads of every path it stands for, in order, keeping data results: the same
   reports, the same subscription keys and the same exception, also when a getter or the access list raises.
   There is no such list exactly when a named endpoint is missing and the cluster is a wildcard.
   */
  lemma WildcardIsConcrete(r: Request, endpoint: Option<int>, cluster: Option<int>, attribute: Option<int>)
    requires DictionaryTables(r)
    requires var pairs := LookedAt(r, endpoint, cluster);
             pairs.Success? ==> forall p | p in pairs.value :: ScansAlike(r, p.0, p.1, attribute)
    ensures Expanded(r, endpoint, cluster, attribute).Failure? <==> MissingEndpoint(r, endpoint, cluster)
    ensures if MissingEndpoint(r, endpoint, cluster)
            then ReadWildcard(r, endpoint, cluster, attribute) == Failure(KeyError)
            else
              var paths := Expanded(r, endpoint, cluster, attribute).value;
              ReadWildcard(r, endpoint, cluster, attribute) == ReadEach(r, paths)
  {
    var es := if endpoint.None? then Ids(r.endpoints) else [endpoint.value];
    PathsPossible(r, es, cluster);
    forall i | 0 <= i < |r.endpoints| ensures FindEndpoint(r.endpoints, r.endpoints[i].id).Some? {
      KnownIds(r.endpoints, i);
    }
    hide FindEndpoint, ReadPairs, ReadEach, Expand, DictionaryTables, ScansAlike;
    var pairs := LookedAt(r, endpoint, cluster);
    if pairs.Success? { PairsSame(r, pairs.value, attribute); }
  }

  /**
   A cluster that the only endpoint lacks: the read of that cluster's attribute on every endpoint passes over it,
   the read on the endpoint itself scans the access list and raises.
   */
  lemma ScanSkipped()
    ensures exists r: Request ::
              && DictionaryTables(r) && ReadWildcard(r, None, Some(6), Some(0)) == Success(NOTHING)
              && Expanded(r, None, Some(6), Some(0)) == Success([Path(1, 6, 0)])
              && ReadEach(r, [Path(1, 6, 0)]) == Failure(AssertionError)
  {
    var entry := Acl.Entry(1, Acl.View, Acl.CASE, [], [Acl.Target(None, None, None)]);
    var subject := Acl.Subject(false, Acl.CASE, 7, [], 1);
    var r := Request([Endpoint(1, {}, [])], [entry], subject, [], None, false, (_, _) => Success(0));
    assert Acl.Malformed(entry, Acl.Object(1, 6, {})) by { assert !Acl.WellFormed(entry.targets[0]); }
    assert Granted(r, 1, 6) == Failure(AssertionError);
    assert ReadConcrete(r, Path(1, 6, 0)) == Failure(AssertionError);
    assert FindEndpoint(r.endpoints, 1) == Some(Endpoint(1, {}, [])) && ReadPair(r, 1, 6, Some(0)) == Success(NOTHING);
    OnlyPair(r, 1, 6, 0);
    assert DictionaryTables(r);
  }

  /** On a node of one endpoint the wildcard endpoint stands for it alone. */
  lemma OnlyPair(r: Request, e: int, c: int, attribute: int)
    requires |r.endpoints| == 1 && r.endpoints[0].id == e
    ensures ReadWildcard(r, None, Some(c), Some(attribute)) == ReadPairs(r, [(e, c)], Some(attribute))
    ensures Expanded(r, None, Some(c), Some(attribute)) == Success([Path(e, c, attribute)])
    ensures ReadPair(r, e, c, Some(attribute)) == Success(NOTHING) ==>
              ReadPairs(r, [(e, c)], Some(attribute)) == Success(NOTHING)
  {
    hide ReadPair, FindEndpoint;
    assert Ids(r.endpoints) == [e] && [e][1..] == [] && [(e, c)][1..] == [];
    assert PossiblePaths(r, [e], Some(c)) == Success([(e, c)] + []);
    assert [(e, c)] + [] == [(e, c)];
    AfterJoin(NOTHING, NOTHING, Success(NOTHING));
    assert Expand(r, [(e, c)], Some(attribute)) == [Path(e, c, attribute)] + [] == [Path(e, c, attribute)];
  }

  /** A list without malformed targets can always be scanned. */
  lemma WellFormedScansAlike(r: Request, e: int, c: int, attribute: Option<int>)
    requires forall a, i | a in r.acl && 0 <= i < |a.targets| :: Acl.WellFormed(a.targets[i])
    ensures ScansAlike(r, e, c, attribute)
  {
    var ep := FindEndpoint(r.endpoints, e);
    Acl.WellFormedSucceeds(r.acl, r.subject, Acl.Object(e, c, if ep.Some? then ep.value.deviceTypes else {}));
  }
}
