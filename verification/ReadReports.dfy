/**
 Which reports and which subscription keys a read gives, told by the tables themselves: by what is in them, and
 not by how they are searched.
 */
module ReadReports {
  import opened Wrappers
  import opened Reads
  import Acl

  // ---------------------------------------------------------------------- what is to be read

  /** The tables are dictionaries: an id names one endpoint, one cluster of it, one attribute of that. */
  predicate Tables(r: Request) {
    && (forall i, j | 0 <= i < j < |r.endpoints| :: r.endpoints[i].id != r.endpoints[j].id)
    && (forall e | e in r.endpoints :: forall i, j | 0 <= i < j < |e.servers| :: e.servers[i].id != e.servers[j].id)
    && DictionaryTables(r)
  }

  /** The attribute that the path names. */
  predicate Here(r: Request, p: Path, e: Endpoint, c: Cluster, a: Attribute) {
    && e in r.endpoints && e.id == p.endpoint && c in e.servers && c.id == p.cluster
    && a in c.attributes && a.id == p.attribute
  }

  /** The filter says which version of the cluster its sender has. */
  predicate About(f: Filter, endpoint: int, cluster: int) {
    f.node.Some? && f.endpoint == Some(endpoint) && f.cluster == Some(cluster)
  }

  /** The last filter about the cluster, or version 0 without one, is no older than the version. */
  ghost predicate Stale(r: Request, endpoint: int, cluster: int, version: int) {
    || (version <= 0 && forall f | f in r.filters :: !About(f, endpoint, cluster))
    || exists i :: && 0 <= i < |r.filters| && About(r.filters[i], endpoint, cluster) && r.filters[i].version >= version
                   && forall j | i < j < |r.filters| :: !About(r.filters[j], endpoint, cluster)
  }

  ghost predicate Allowed(r: Request, p: Path, deviceTypes: set<int>, privilege: Acl.Privilege) {
    Acl.Grants(r.acl, r.subject, Acl.Object(p.endpoint, p.cluster, deviceTypes), privilege)
  }

  /** The subject may read the attribute, it can be read, and the reader does not have it already. */
  ghost predicate Visible(r: Request, p: Path, e: Endpoint, c: Cluster, a: Attribute) {
    && Allowed(r, p, e.deviceTypes, Acl.View) && Allowed(r, p, e.deviceTypes, a.privilege)
    && a.hasGetter && !a.writeOnly && !Stale(r, p.endpoint, p.cluster, c.version)
  }

  /** What `get` returns for the path, or no value for an element of what is not a list. */
  predicate Holds(r: Request, p: Path, a: Attribute, value: Option<int>) {
    if r.listIndex.Some? && !a.isList then value == None
    else value.Some? && r.get(p, r.listIndex) == Success(value.value)
  }

  /** A change of the attribute is to be reported: it has a value here that may change, and changes are not omitted. */
  predicate Watched(r: Request, a: Attribute) {
    r.subscribed && (r.listIndex.Some? ==> a.isList) && !a.changesOmitted && !a.fixed
  }

  /** The report is the data of an attribute that is to be read, with its cluster's version and its own value. */
  ghost predicate Expected(r: Request, report: Report) {
    report.Data? && exists e, c, a :: ExpectedOf(r, report, e, c, a)
  }

  ghost predicate ExpectedOf(r: Request, report: Report, e: Endpoint, c: Cluster, a: Attribute) {
    && report.Data? && Here(r, report.path, e, c, a) && Visible(r, report.path, e, c, a)
    && report.version == c.version && Holds(r, report.path, a, report.value)
  }

  ghost predicate Registered(r: Request, p: Path) {
    exists e, c, a :: RegisteredOf(r, p, e, c, a)
  }

  ghost predicate RegisteredOf(r: Request, p: Path, e: Endpoint, c: Cluster, a: Attribute) {
    Here(r, p, e, c, a) && Visible(r, p, e, c, a) && Watched(r, a)
  }

  // ---------------------------------------------------------------------- searching

  lemma {:induction false} EndpointFound(es: seq<Endpoint>, e: Endpoint)
    requires e in es && forall i, j | 0 <= i < j < |es| :: es[i].id != es[j].id
    ensures FindEndpoint(es, e.id) == Some(e)
  {
    if es[0] != e {
      var k :| 0 <= k < |es| && es[k] == e;
      EndpointFound(es[1..], e);
    }
  }

  lemma {:induction false} ClusterFound(cs: seq<Cluster>, c: Cluster)
    requires c in cs && forall i, j | 0 <= i < j < |cs| :: cs[i].id != cs[j].id
    ensures FindCluster(cs, c.id) == Some(c)
  {
    if cs[0] != c {
      var k :| 0 <= k < |cs| && cs[k] == c;
      ClusterFound(cs[1..], c);
    }
  }

  lemma {:induction false} AttributeIn(attrs: seq<Attribute>, id: int)
    ensures FindAttribute(attrs, id).Some? ==> FindAttribute(attrs, id).value in attrs
    ensures FindAttribute(attrs, id).None? ==> forall a | a in attrs :: a.id != id
  {
    if attrs != [] && attrs[0].id != id { AttributeIn(attrs[1..], id); }
  }

  lemma AttributeFound(attrs: seq<Attribute>, a: Attribute)
    requires a in attrs && DistinctAttributes(attrs)
    ensures FindAttribute(attrs, a.id) == Some(a)
  {
    var i :| 0 <= i < |attrs| && attrs[i] == a;
    FindAttributeAt(attrs, i);
  }

  /** The filters are searched from the last. */
  lemma {:induction false} StaleIff(filters: seq<Filter>, endpoint: int, cluster: int, r: Request, version: int)
    requires r.filters == filters
    ensures Stale(r, endpoint, cluster, version) <==> DataVersion(filters, endpoint, cluster) >= version
  {
    if filters != [] {
      var n := |filters| - 1;
      var shorter := r.(filters := filters[..n]);
      StaleIff(filters[..n], endpoint, cluster, shorter, version);
      assert filters == filters[..n] + [filters[n]];
      if About(filters[n], endpoint, cluster) {
        assert filters[n] in filters;
      } else {
        assert forall f | f in filters :: f in filters[..n] || f == filters[n];
        assert Stale(r, endpoint, cluster, version) <==> Stale(shorter, endpoint, cluster, version) by {
          assert forall i | 0 <= i < n :: filters[i] == filters[..n][i];
        }
      }
    }
  }

  // ---------------------------------------------------------------------- one cluster

  /** The privileges let the attribute be read, and it can be. */
  predicate Readable(a: Attribute, granted: set<Acl.Privilege>) {
    a.privilege in granted && a.hasGetter && !a.writeOnly
  }

  predicate DataReport(r: Request, p: Path, version: int, a: Attribute, report: Report) {
    report.Data? && report.path == p && report.version == version && Holds(r, p, a, report.value)
  }

  ghost predicate SomeReports(r: Request, e: int, c: Cluster, granted: set<Acl.Privilege>, attrs: seq<Attribute>,
                              report: Report)
  {
    exists a :: a in attrs && Readable(a, granted) && DataReport(r, Path(e, c.id, a.id), c.version, a, report)
  }

  ghost predicate SomeWatched(r: Request, e: int, c: Cluster, granted: set<Acl.Privilege>, attrs: seq<Attribute>,
                              key: Path)
  {
    exists a :: a in attrs && Readable(a, granted) && key == Path(e, c.id, a.id) && Watched(r, a)
  }

  lemma AttributeDataIs(r: Request, p: Path, version: int, a: Attribute, report: Report, key: Path)
    requires AttributeData(r, p, version, a).Success?
    ensures report in AttributeData(r, p, version, a).value.reports <==> DataReport(r, p, version, a, report)
    ensures key in AttributeData(r, p, version, a).value.keys <==> key == p && Watched(r, a)
  {
  }

  lemma {:induction false} AttributesAre(r: Request, e: int, c: Cluster, granted: set<Acl.Privilege>,
                                         attrs: seq<Attribute>, report: Report, key: Path)
    requires ReadAttributes(r, e, c, granted, attrs).Success?
    ensures report in ReadAttributes(r, e, c, granted, attrs).value.reports <==>
            SomeReports(r, e, c, granted, attrs, report)
    ensures key in ReadAttributes(r, e, c, granted, attrs).value.keys <==> SomeWatched(r, e, c, granted, attrs, key)
  {
    if attrs != [] {
      var a := attrs[0];
      AttributesAre(r, e, c, granted, attrs[1..], report, key);
      if Readable(a, granted) { AttributeDataIs(r, Path(e, c.id, a.id), c.version, a, report, key); }
      hide AttributeData, DataReport, Watched;
      assert forall x :: x in attrs <==> x == a || x in attrs[1..];
    }
  }

  lemma {:induction false} SupportedIs(attrs: seq<Attribute>, a: Attribute)
    ensures a in SupportedOnly(attrs) <==> a in attrs && (a.hasGetter || a.hasSetter)
  {
    if attrs != [] { SupportedIs(attrs[1..], a); }
  }

  /** The attributes of a cluster that the request names. */
  lemma WantedIs(c: Cluster, attribute: Option<int>, granted: set<Acl.Privilege>, a: Attribute)
    requires DistinctAttributes(c.attributes)
    ensures a in Wanted(c, attribute) && Readable(a, granted) <==>
            a in c.attributes && Readable(a, granted) && (attribute.Some? ==> a.id == attribute.value)
  {
    SupportedIs(c.attributes, a);
    if attribute.Some? {
      AttributeIn(c.attributes, attribute.value);
      FindAttributeId(c.attributes, attribute.value);
      if a in c.attributes { AttributeFound(c.attributes, a); }
    }
    hide FindAttribute, SupportedOnly, DistinctAttributes;
  }

  lemma HereIs(r: Request, p: Path, ep: Endpoint, cl: Cluster, e: Endpoint, c: Cluster, a: Attribute)
    requires Tables(r) && FindEndpoint(r.endpoints, p.endpoint) == Some(ep)
    requires FindCluster(ep.servers, p.cluster) == Some(cl)
    ensures Here(r, p, e, c, a) <==> e == ep && c == cl && a in cl.attributes && a.id == p.attribute
  {
    FindEndpointIn(r.endpoints, p.endpoint);
    FindClusterIn(ep.servers, p.cluster);
    if Here(r, p, e, c, a) {
      EndpointFound(r.endpoints, e);
      ClusterFound(e.servers, c);
    }
  }

  lemma NotHere(r: Request, p: Path, e: Endpoint, c: Cluster, a: Attribute)
    requires Tables(r)
    requires var ep := FindEndpoint(r.endpoints, p.endpoint);
             ep.Some? ==> FindCluster(ep.value.servers, p.cluster).None?
    ensures !Here(r, p, e, c, a)
  {
    if Here(r, p, e, c, a) {
      EndpointFound(r.endpoints, e);
      ClusterFound(e.servers, c);
    }
  }

  lemma VisibleIs(r: Request, p: Path, ep: Endpoint, cl: Cluster, a: Attribute, granted: set<Acl.Privilege>)
    requires FindEndpoint(r.endpoints, p.endpoint) == Some(ep)
    requires Granted(r, p.endpoint, p.cluster) == Success(granted)
    ensures Visible(r, p, ep, cl, a) <==>
            Acl.View in granted && Readable(a, granted) && DataVersion(r.filters, p.endpoint, p.cluster) < cl.version
  {
    StaleIff(r.filters, p.endpoint, p.cluster, r, cl.version);
    Acl.GrantedIsUnion(r.acl, r.subject, Acl.Object(p.endpoint, p.cluster, ep.deviceTypes));
    hide Acl.Scan, Acl.Grants, Acl.Commissioner, Stale, DataVersion, FindEndpoint;
  }

  predicate InRange(p: Path, endpoint: Option<int>, cluster: Option<int>, attribute: Option<int>) {
    && (endpoint.Some? ==> p.endpoint == endpoint.value) && (cluster.Some? ==> p.cluster == cluster.value)
    && (attribute.Some? ==> p.attribute == attribute.value)
  }

  /** Reports and keys of a read are those of the paths in range. */
  ghost predicate Exactly(r: Request, o: Out, endpoint: Option<int>, cluster: Option<int>, attribute: Option<int>,
                          report: Report, key: Path)
  {
    && (report in o.reports <==> Expected(r, report) && InRange(report.path, endpoint, cluster, attribute))
    && (key in o.keys <==> Registered(r, key) && InRange(key, endpoint, cluster, attribute))
  }

  lemma PairExactly(r: Request, e: int, c: int, attribute: Option<int>, report: Report, key: Path)
    requires Tables(r) && ReadPair(r, e, c, attribute).Success?
    ensures Exactly(r, ReadPair(r, e, c, attribute).value, Some(e), Some(c), attribute, report, key)
  {
    var ep := FindEndpoint(r.endpoints, e);
    var cl := if ep.Some? then FindCluster(ep.value.servers, c) else None;
    hide Exactly, Granted, FindEndpoint, FindCluster;
    if cl.None? {
      NothingThere(r, e, c, attribute, report, key);
    } else {
      var granted := Granted(r, e, c).value;
      FoundThere(r, e, c, ep.value, cl.value, granted, attribute, report, key);
    }
  }

  lemma NothingThere(r: Request, e: int, c: int, attribute: Option<int>, report: Report, key: Path)
    requires Tables(r)
    requires var ep := FindEndpoint(r.endpoints, e); ep.Some? ==> FindCluster(ep.value.servers, c).None?
    ensures Exactly(r, NOTHING, Some(e), Some(c), attribute, report, key)
  {
    forall x, y, a | report.Data? && InRange(report.path, Some(e), Some(c), attribute)
      ensures !ExpectedOf(r, report, x, y, a)
    {
      NotHere(r, report.path, x, y, a);
    }
    forall x, y, a | InRange(key, Some(e), Some(c), attribute) ensures !RegisteredOf(r, key, x, y, a) {
      NotHere(r, key, x, y, a);
    }
    hide ExpectedOf, RegisteredOf, Tables, FindEndpoint, FindCluster;
  }

  /** The pair's cluster and what is granted on it. */
  ghost predicate Found(r: Request, e: int, c: int, ep: Endpoint, cl: Cluster, granted: set<Acl.Privilege>) {
    && Tables(r) && FindEndpoint(r.endpoints, e) == Some(ep) && FindCluster(ep.servers, c) == Some(cl)
    && cl.id == c && DistinctAttributes(cl.attributes) && Granted(r, e, c) == Success(granted)
  }

  predicate Seen(r: Request, e: int, c: int, cl: Cluster, granted: set<Acl.Privilege>) {
    Acl.View in granted && DataVersion(r.filters, e, c) < cl.version
  }

  /** The attribute at a path of the pair. */
  lemma AttributeThere(r: Request, p: Path, ep: Endpoint, cl: Cluster, granted: set<Acl.Privilege>,
                       attribute: Option<int>, x: Endpoint, y: Cluster, a: Attribute)
    requires Found(r, p.endpoint, p.cluster, ep, cl, granted) && (attribute.Some? ==> p.attribute == attribute.value)
    ensures Here(r, p, x, y, a) && Visible(r, p, x, y, a) <==>
            && Seen(r, p.endpoint, p.cluster, cl, granted) && x == ep && y == cl
            && a in Wanted(cl, attribute) && Readable(a, granted) && p == Path(p.endpoint, cl.id, a.id)
  {
    HereIs(r, p, ep, cl, x, y, a);
    VisibleIs(r, p, ep, cl, a, granted);
    WantedIs(cl, attribute, granted, a);
    hide Tables, FindEndpoint, FindCluster, Granted, DataVersion, Here, Visible, Wanted, Readable;
  }

  lemma ExpectedIff(r: Request, e: int, c: int, ep: Endpoint, cl: Cluster, granted: set<Acl.Privilege>,
                    attribute: Option<int>, report: Report)
    requires Found(r, e, c, ep, cl, granted)
    ensures Expected(r, report) && InRange(report.path, Some(e), Some(c), attribute) <==>
            Seen(r, e, c, cl, granted) && SomeReports(r, e, cl, granted, Wanted(cl, attribute), report)
  {
    hide Found, Seen, Here, Visible, Wanted, Readable;
    if Expected(r, report) && InRange(report.path, Some(e), Some(c), attribute) {
      var x, y, a :| ExpectedOf(r, report, x, y, a);
      AttributeThere(r, report.path, ep, cl, granted, attribute, x, y, a);
    }
    if a :| Seen(r, e, c, cl, granted) && a in Wanted(cl, attribute) && Readable(a, granted)
            && DataReport(r, Path(e, cl.id, a.id), cl.version, a, report) {
      NamedHere(r, e, c, ep, cl, granted, attribute, a);
      AttributeThere(r, report.path, ep, cl, granted, attribute, ep, cl, a);
      assert ExpectedOf(r, report, ep, cl, a);
    }
  }

  lemma NamedHere(r: Request, e: int, c: int, ep: Endpoint, cl: Cluster, granted: set<Acl.Privilege>,
                  attribute: Option<int>, a: Attribute)
    requires Found(r, e, c, ep, cl, granted) && a in Wanted(cl, attribute) && Readable(a, granted)
    ensures cl.id == c && (attribute.Some? ==> a.id == attribute.value)
  {
    WantedIs(cl, attribute, granted, a);
    hide Tables, FindEndpoint, FindCluster, Granted, Wanted, Readable;
  }

  lemma RegisteredIff(r: Request, e: int, c: int, ep: Endpoint, cl: Cluster, granted: set<Acl.Privilege>,
                      attribute: Option<int>, key: Path)
    requires Found(r, e, c, ep, cl, granted)
    ensures Registered(r, key) && InRange(key, Some(e), Some(c), attribute) <==>
            Seen(r, e, c, cl, granted) && SomeWatched(r, e, cl, granted, Wanted(cl, attribute), key)
  {
    hide Found, Seen, Here, Visible, Wanted, Readable;
    if Registered(r, key) && InRange(key, Some(e), Some(c), attribute) {
      var x, y, a :| RegisteredOf(r, key, x, y, a);
      AttributeThere(r, key, ep, cl, granted, attribute, x, y, a);
    }
    if a :| Seen(r, e, c, cl, granted) && a in Wanted(cl, attribute) && Readable(a, granted)
            && key == Path(e, cl.id, a.id) && Watched(r, a) {
      NamedHere(r, e, c, ep, cl, granted, attribute, a);
      AttributeThere(r, key, ep, cl, granted, attribute, ep, cl, a);
      assert RegisteredOf(r, key, ep, cl, a);
    }
  }

  lemma FoundThere(r: Request, e: int, c: int, ep: Endpoint, cl: Cluster, granted: set<Acl.Privilege>,
                   attribute: Option<int>, report: Report, key: Path)
    requires Tables(r) && ReadPair(r, e, c, attribute).Success?
    requires FindEndpoint(r.endpoints, e) == Some(ep) && FindCluster(ep.servers, c) == Some(cl)
    requires Granted(r, e, c) == Success(granted)
    ensures Exactly(r, ReadPair(r, e, c, attribute).value, Some(e), Some(c), attribute, report, key)
  {
    FindEndpointIn(r.endpoints, e);
    FindClusterIn(ep.servers, c);
    hide FindEndpoint, FindCluster, Granted, DataVersion, Wanted, Readable, DataReport, Watched, InRange;
    hide ReadAttributes;
    hide Expected, Registered;
    ExpectedIff(r, e, c, ep, cl, granted, attribute, report);
    RegisteredIff(r, e, c, ep, cl, granted, attribute, key);
    hide Tables, DistinctAttributes;
    if Seen(r, e, c, cl, granted) { AttributesAre(r, e, cl, granted, Wanted(cl, attribute), report, key); }
  }

  // ---------------------------------------------------------------------- wildcards

  ghost predicate ExpectedIn(r: Request, pairs: seq<(int, int)>, attribute: Option<int>, report: Report) {
    Expected(r, report) && (report.path.endpoint, report.path.cluster) in pairs
      && InRange(report.path, None, None, attribute)
  }

  ghost predicate RegisteredIn(r: Request, pairs: seq<(int, int)>, attribute: Option<int>, key: Path) {
    Registered(r, key) && (key.endpoint, key.cluster) in pairs && InRange(key, None, None, attribute)
  }

  lemma {:induction false} PairsExactly(r: Request, pairs: seq<(int, int)>, attribute: Option<int>, report: Report,
                                        key: Path)
    requires Tables(r) && ReadPairs(r, pairs, attribute).Success?
    ensures var o := ReadPairs(r, pairs, attribute).value;
            && (report in o.reports <==> ExpectedIn(r, pairs, attribute, report))
            && (key in o.keys <==> RegisteredIn(r, pairs, attribute, key))
  {
    hide Tables, ReadPair, Expected, Registered;
    if pairs != [] {
      var (e, c) := pairs[0];
      PairExactly(r, e, c, attribute, report, key);
      PairsExactly(r, pairs[1..], attribute, report, key);
      assert forall p :: p in pairs <==> p == pairs[0] || p in pairs[1..];
    }
  }

  /** The pairs looked at are the existing clusters in range, and perhaps pairs that name nothing. */
  lemma {:induction false} PathsLookedAt(r: Request, es: seq<int>, cluster: Option<int>, e: Endpoint, c: Cluster)
    requires Tables(r) && PossiblePaths(r, es, cluster).Success? && e in r.endpoints && c in e.servers
    ensures (e.id, c.id) in PossiblePaths(r, es, cluster).value <==>
            e.id in es && (cluster.Some? ==> c.id == cluster.value)
  {
    if es != [] {
      PathsLookedAt(r, es[1..], cluster, e, c);
      EndpointFound(r.endpoints, e);
      assert e.id in es <==> e.id == es[0] || e.id in es[1..];
      var found := FindEndpoint(r.endpoints, es[0]);
      if cluster.None? && es[0] == e.id {
        var k :| 0 <= k < |e.servers| && e.servers[k] == c;
        assert Pairs(e.id, e.servers)[k] == (e.id, c.id);
      }
      hide FindEndpoint, Tables, Pairs;
      assert cluster.Some? && (e.id, c.id) == (es[0], cluster.value) ==> c.id == cluster.value;
    }
  }

  /**
   A wildcard read reports exactly the attributes in range that its subject may read, whose cluster is newer than
   the reader has, each with the version of its cluster and what `get` returns for its own path; and registers
   exactly those that have a value, may change, and do not omit changes: none without a subscription.
   */
  lemma WildcardExactly(r: Request, endpoint: Option<int>, cluster: Option<int>, attribute: Option<int>,
                        report: Report, key: Path)
    requires Tables(r) && ReadWildcard(r, endpoint, cluster, attribute).Success?
    ensures Exactly(r, ReadWildcard(r, endpoint, cluster, attribute).value, endpoint, cluster, attribute, report, key)
  {
    var es := if endpoint.None? then Ids(r.endpoints) else [endpoint.value];
    var pairs := PossiblePaths(r, es, cluster).value;
    PairsExactly(r, pairs, attribute, report, key);
    hide Tables, ReadPairs, PossiblePaths, Ids, Visible, Holds, Watched;
    if Expected(r, report) {
      var e, c, a :| ExpectedOf(r, report, e, c, a);
      LookedAtInRange(r, report.path, endpoint, cluster, e, c, a);
    }
    if Registered(r, key) {
      var e, c, a :| RegisteredOf(r, key, e, c, a);
      LookedAtInRange(r, key, endpoint, cluster, e, c, a);
    }
  }

  lemma LookedAtInRange(r: Request, p: Path, endpoint: Option<int>, cluster: Option<int>, e: Endpoint, c: Cluster,
                        a: Attribute)
    requires Tables(r) && LookedAt(r, endpoint, cluster).Success? && Here(r, p, e, c, a)
    ensures (p.endpoint, p.cluster) in LookedAt(r, endpoint, cluster).value <==> InRange(p, endpoint, cluster, None)
  {
    var es := if endpoint.None? then Ids(r.endpoints) else [endpoint.value];
    PathsLookedAt(r, es, cluster, e, c);
    var i :| 0 <= i < |r.endpoints| && r.endpoints[i] == e;
    assert endpoint.None? ==> Ids(r.endpoints)[i] == e.id;
    hide Tables, PossiblePaths;
  }

  // ---------------------------------------------------------------------- one path

  ghost predicate EndpointAt(r: Request, p: Path) {
    exists e :: e in r.endpoints && e.id == p.endpoint
  }

  ghost predicate ClusterAt(r: Request, p: Path) {
    exists e, c :: ClusterOf(r, p, e, c)
  }

  predicate ClusterOf(r: Request, p: Path, e: Endpoint, c: Cluster) {
    e in r.endpoints && e.id == p.endpoint && c in e.servers && c.id == p.cluster
  }

  ghost predicate AttributeAt(r: Request, p: Path) {
    exists e, c, a :: Here(r, p, e, c, a)
  }

  /** The device types of the endpoint, which a missing one does not have. */
  ghost predicate TypesAt(r: Request, p: Path, types: set<int>) {
    if EndpointAt(r, p) then exists e :: e in r.endpoints && e.id == p.endpoint && e.deviceTypes == types
    else types == {}
  }

  /** The attribute is there, and the subject lacks its privilege. */
  ghost predicate Denied(r: Request, p: Path, types: set<int>) {
    exists e, c, a :: Here(r, p, e, c, a) && !Allowed(r, p, types, a.privilege)
  }

  /** The attribute is there, the subject has its privilege, and it cannot be read. */
  ghost predicate Unreadable(r: Request, p: Path, types: set<int>) {
    exists e, c, a :: Here(r, p, e, c, a) && Allowed(r, p, types, a.privilege) && (!a.hasGetter || a.writeOnly)
  }

  /** When each status is due; without View on the path nothing is told of what exists there. */
  ghost predicate StatusDue(r: Request, p: Path, types: set<int>, code: StatusCode) {
    match code
    case UnsupportedNode => false
    case UnsupportedAccess => !Allowed(r, p, types, Acl.View) || Denied(r, p, types)
    case UnsupportedEndpoint => Allowed(r, p, types, Acl.View) && !EndpointAt(r, p)
    case UnsupportedCluster => Allowed(r, p, types, Acl.View) && EndpointAt(r, p) && !ClusterAt(r, p)
    case UnsupportedAttribute => Allowed(r, p, types, Acl.View) && ClusterAt(r, p) && !AttributeAt(r, p)
    case UnsupportedRead => Allowed(r, p, types, Acl.View) && Unreadable(r, p, types)
  }

  lemma {:induction false} NoEndpoint(es: seq<Endpoint>, id: int)
    requires FindEndpoint(es, id).None?
    ensures forall e | e in es :: e.id != id
  {
    if es != [] { NoEndpoint(es[1..], id); }
  }

  lemma {:induction false} NoCluster(cs: seq<Cluster>, id: int)
    requires FindCluster(cs, id).None?
    ensures forall c | c in cs :: c.id != id
  {
    if cs != [] { NoCluster(cs[1..], id); }
  }

  /** What the searches find is what there is. */
  lemma SearchesFind(r: Request, p: Path, types: set<int>)
    requires Tables(r) && TypesAt(r, p, types)
    ensures var e := FindEndpoint(r.endpoints, p.endpoint);
            var c := if e.Some? then FindCluster(e.value.servers, p.cluster) else None;
            var a := if c.Some? then FindAttribute(c.value.attributes, p.attribute) else None;
            && types == (if e.Some? then e.value.deviceTypes else {})
            && (e.Some? <==> EndpointAt(r, p)) && (c.Some? <==> ClusterAt(r, p)) && (a.Some? <==> AttributeAt(r, p))
            && (a.Some? ==> forall x, y, z :: Here(r, p, x, y, z) <==> x == e.value && y == c.value && z == a.value)
  {
    var e := FindEndpoint(r.endpoints, p.endpoint);
    if e.None? {
      NoEndpoint(r.endpoints, p.endpoint);
    } else {
      FindEndpointIn(r.endpoints, p.endpoint);
      forall x | x in r.endpoints && x.id == p.endpoint ensures x == e.value {
        EndpointFound(r.endpoints, x);
      }
      hide FindEndpoint;
      ClustersFind(r, p, e.value);
    }
  }

  lemma ClustersFind(r: Request, p: Path, e: Endpoint)
    requires Tables(r) && FindEndpoint(r.endpoints, p.endpoint) == Some(e)
    ensures var c := FindCluster(e.servers, p.cluster);
            var a := if c.Some? then FindAttribute(c.value.attributes, p.attribute) else None;
            && (c.Some? <==> ClusterAt(r, p)) && (a.Some? <==> AttributeAt(r, p))
            && (a.Some? ==> forall x, y, z :: Here(r, p, x, y, z) <==> x == e && y == c.value && z == a.value)
  {
    FindEndpointIn(r.endpoints, p.endpoint);
    var c := FindCluster(e.servers, p.cluster);
    forall x | x in r.endpoints && x.id == p.endpoint ensures x == e {
      EndpointFound(r.endpoints, x);
    }
    if c.None? {
      NoCluster(e.servers, p.cluster);
    } else {
      FindClusterIn(e.servers, p.cluster);
      assert ClusterOf(r, p, e, c.value);
      var a := FindAttribute(c.value.attributes, p.attribute);
      AttributeIn(c.value.attributes, p.attribute);
      FindAttributeId(c.value.attributes, p.attribute);
      forall x, y, z
        ensures Here(r, p, x, y, z) <==> x == e && y == c.value && z in c.value.attributes && z.id == p.attribute
      {
        HereIs(r, p, e, c.value, x, y, z);
      }
      forall z | z in c.value.attributes && z.id == p.attribute ensures a == Some(z) {
        AttributeFound(c.value.attributes, z);
      }
      hide Here, FindEndpoint, FindCluster, FindAttribute, Tables;
      if a.Some? { assert Here(r, p, e, c.value, a.value); }
    }
  }

  /** What is to be told of the attribute at the path. */
  lemma AttributeTold(r: Request, p: Path, report: Report, e: Endpoint, c: Cluster, a: Attribute)
    requires forall x, y, z :: Here(r, p, x, y, z) <==> x == e && y == c && z == a
    ensures Expected(r, report) && report.path == p <==>
            Visible(r, p, e, c, a) && DataReport(r, p, c.version, a, report)
    ensures Registered(r, p) <==> Visible(r, p, e, c, a) && Watched(r, a)
    ensures AttributeAt(r, p)
    ensures Denied(r, p, e.deviceTypes) <==> !Allowed(r, p, e.deviceTypes, a.privilege)
    ensures Unreadable(r, p, e.deviceTypes) <==>
            Allowed(r, p, e.deviceTypes, a.privilege) && (!a.hasGetter || a.writeOnly)
  {
    assert Here(r, p, e, c, a);
    hide Here, Visible, Holds, Watched, Allowed;
    assert report.Data? && report.path == p ==> (Expected(r, report) <==> ExpectedOf(r, report, e, c, a));
    assert Registered(r, p) <==> RegisteredOf(r, p, e, c, a);
  }

  /** Nothing is to be read where there is no attribute. */
  lemma NothingTold(r: Request, p: Path, types: set<int>, report: Report)
    requires !AttributeAt(r, p)
    ensures !(Expected(r, report) && report.path == p) && !Registered(r, p)
    ensures !Denied(r, p, types) && !Unreadable(r, p, types)
  {
    hide Here, Visible, Holds, Watched, Allowed;
    assert forall x, y, z :: !Here(r, p, x, y, z);
  }

  ghost predicate ConcreteGives(r: Request, p: Path, types: set<int>, o: Out, report: Report, key: Path) {
    && |o.reports| <= 1
    && (report in o.reports <==>
        if report.Data? then report.path == p && Expected(r, report) else StatusDue(r, p, types, report.code))
    && (key in o.keys <==> key == p && Registered(r, key))
  }

  lemma AllowedIs(r: Request, p: Path, types: set<int>)
    requires var e := FindEndpoint(r.endpoints, p.endpoint); types == if e.Some? then e.value.deviceTypes else {}
    requires Granted(r, p.endpoint, p.cluster).Success?
    ensures forall q :: Allowed(r, p, types, q) <==> q in Granted(r, p.endpoint, p.cluster).value
  {
    Acl.GrantedIsUnion(r.acl, r.subject, Acl.Object(p.endpoint, p.cluster, types));
    hide Acl.Scan, Acl.Grants, Acl.Commissioner, FindEndpoint;
  }

  lemma ToldThere(r: Request, p: Path, e: Endpoint, c: Cluster, a: Attribute, report: Report, key: Path)
    requires FindEndpoint(r.endpoints, p.endpoint) == Some(e) && FindCluster(e.servers, p.cluster) == Some(c)
    requires FindAttribute(c.attributes, p.attribute) == Some(a) && ReadConcrete(r, p).Success?
    requires forall x, y, z :: Here(r, p, x, y, z) <==> x == e && y == c && z == a
    requires EndpointAt(r, p) && ClusterAt(r, p)
    ensures ConcreteGives(r, p, e.deviceTypes, ReadConcrete(r, p).value, report, key)
  {
    AllowedIs(r, p, e.deviceTypes);
    AttributeTold(r, p, report, e, c, a);
    StaleIff(r.filters, p.endpoint, p.cluster, r, c.version);
    hide FindEndpoint, FindCluster, FindAttribute, Granted, DataVersion, Allowed, Here, Holds, Watched, EndpointAt;
    hide ClusterAt, AttributeAt, Stale, Expected, Registered, Denied, Unreadable;
    if AttributeData(r, p, c.version, a).Success? { AttributeDataIs(r, p, c.version, a, report, key); }
    hide AttributeData, DataReport;
  }

  lemma NothingThereTold(r: Request, p: Path, types: set<int>, report: Report, key: Path)
    requires Tables(r) && TypesAt(r, p, types) && ReadConcrete(r, p).Success? && !AttributeAt(r, p)
    ensures ConcreteGives(r, p, types, ReadConcrete(r, p).value, report, key)
  {
    SearchesFind(r, p, types);
    AllowedIs(r, p, types);
    NothingTold(r, p, types, report);
    hide Tables, TypesAt, FindEndpoint, FindCluster, FindAttribute, Granted, DataVersion, Allowed, Here, EndpointAt;
    hide ClusterAt, AttributeAt, AttributeData, Expected, Registered, Denied, Unreadable;
  }

  /**
   A concrete read gives the path's data exactly when it is to be read, registers it exactly when it is to be
   watched, and otherwise gives the one status that is due, or nothing to a reader that is up to date.
   */
  lemma ConcreteExactly(r: Request, p: Path, types: set<int>, report: Report, key: Path)
    requires Tables(r) && TypesAt(r, p, types) && ReadConcrete(r, p).Success?
    ensures var o := ReadConcrete(r, p).value;
            && |o.reports| <= 1
            && (report in o.reports <==>
                if report.Data? then report.path == p && Expected(r, report) else StatusDue(r, p, types, report.code))
            && (key in o.keys <==> key == p && Registered(r, key))
  {
    SearchesFind(r, p, types);
    hide Tables, TypesAt, FindEndpoint, FindCluster, FindAttribute, Here, EndpointAt, ClusterAt, AttributeAt, Expected;
    hide Registered, StatusDue, ReadConcrete;
    var e := FindEndpoint(r.endpoints, p.endpoint);
    var c := if e.Some? then FindCluster(e.value.servers, p.cluster) else None;
    var a := if c.Some? then FindAttribute(c.value.attributes, p.attribute) else None;
    if a.Some? {
      ToldThere(r, p, e.value, c.value, a.value, report, key);
    } else {
      NothingThereTold(r, p, types, report, key);
    }
  }
}
