/** Request dispatch: the four list and view handlers resolve a plural name to
    a resource type of the registry and query the cluster for it. The cluster
    queries (`as_table`, `get`) are plain function parameters: `tables` gives
    the table projection of a query, `objects` the instance of a name, or
    `None` where the source raises `ObjectDoesNotExist`. */
module Dispatch {
  import opened Common
  import opened Strings
  import opened Discovery
  import opened Registry
  import opened Tsv

  /** A query for the instances of one resource type: its namespace filter and
      label selector, when given. */
  datatype Query = Query(resourceType: Handle, namespace: Option<string>, selector: Option<string>)

  /** One resource instance (the body is opaque to the handlers). */
  datatype Object = Object(name: string, manifest: string)

  /** The request path and its query parameters. The query string may repeat
      a key; `get` and `[]` see only its first value, so each key maps to the
      first value given for it. */
  datatype Request = Request(path: string, params: map<string, string>)

  /** What a handler returns. */
  datatype Response =
    | Status(code: int, text: string)
    | ListPage(cluster: string, namespace: Option<string>, plural: string, tables: seq<Table>)
    | ViewPage(cluster: string, namespace: Option<string>, plural: string, resource: Object, view: Option<string>)
    | Attachment(download: Tsv.Download)
    | Unhandled(exception: string)

  const TypeNotFound: string := "Resource type not found"
  const ObjectNotFound: string := "Resource does not exist"
  const NamespaceKind: string := "Namespace"

  // ---------------------------------------------------------------------------
  // Lookup

  /** The position of the first resource type whose endpoint is `plural`. */
  function FindIndex(types: seq<Handle>, plural: string): (r: Option<nat>)
    ensures r.Some? ==> r.value < |types| && types[r.value].endpoint == plural
    ensures r.Some? ==> forall j :: 0 <= j < r.value ==> types[j].endpoint != plural
    ensures r.None? <==> forall j :: 0 <= j < |types| ==> types[j].endpoint != plural
    decreases |types|
  {
    if |types| == 0 then None
    else if types[0].endpoint == plural then Some(0)
    else match FindIndex(types[1..], plural)
      case None => None
      case Some(i) => Some(i + 1)
  }

  /** The lookup loop of every handler: it walks the resource types in order
      and stops at the first one whose endpoint is the plural, so duplicates
      are tolerated. */
  function Find(types: seq<Handle>, plural: string): (r: Option<Handle>)
    ensures r.None? <==> forall h :: h in types ==> h.endpoint != plural
    ensures r.Some? ==> r.value in types && r.value.endpoint == plural
    ensures r.Some? ==> exists i ::
      && 0 <= i < |types| && types[i] == r.value
      && forall j :: 0 <= j < i ==> types[j].endpoint != plural
  {
    match FindIndex(types, plural)
    case None => None
    case Some(i) => Some(types[i])
  }

  /** A type found in a prefix of the list is the one found in the whole list. */
  lemma FindFirstWins(a: seq<Handle>, b: seq<Handle>, plural: string)
    requires Find(a, plural).Some?
    ensures Find(a + b, plural) == Find(a, plural)
  {
    var i := FindIndex(a, plural).value;
    assert (a + b)[i] == a[i];
  }

  // ---------------------------------------------------------------------------
  // Query parameters

  /** `params.get("download") == "tsv"`. */
  predicate WantsTsv(req: Request) {
    "download" in req.params && req.params["download"] == "tsv"
  }

  /** `params.get(key)`. */
  function Param(req: Request, key: string): Option<string> {
    if key in req.params then Some(req.params[key]) else None
  }

  // ---------------------------------------------------------------------------
  // Cluster-scoped resources

  /** `get_cluster_resource_list`: a 404 exactly when no cluster-scoped type
      has the endpoint; otherwise the unfiltered table of the first such type,
      as a download when `download=tsv` is asked for and as a one-table page
      without a namespace otherwise. */
  function ClusterResourceList(reg: Registry, tables: Query -> Table, cluster: string, plural: string, req: Request): (resp: Response)
    ensures resp == Status(404, TypeNotFound) <==> forall h :: h in reg.clusterTypes ==> h.endpoint != plural
    ensures resp.Status? ==> resp == Status(404, TypeNotFound)
    ensures Find(reg.clusterTypes, plural).Some? && WantsTsv(req) ==>
      resp == Attachment(DownloadTsv(req.path, tables(Query(Find(reg.clusterTypes, plural).value, None, None))))
    ensures Find(reg.clusterTypes, plural).Some? && !WantsTsv(req) ==>
      resp == ListPage(cluster, None, plural, [tables(Query(Find(reg.clusterTypes, plural).value, None, None))])
  {
    match Find(reg.clusterTypes, plural)
    case None => Status(404, TypeNotFound)
    case Some(h) =>
      var table := tables(Query(h, None, None));
      if WantsTsv(req) then Attachment(DownloadTsv(req.path, table))
      else ListPage(cluster, None, plural, [table])
  }

  /** The namespace shown with a cluster-scoped instance: a namespace is its
      own namespace; every other kind has none. */
  function ViewNamespace(h: Handle, obj: Object): Option<string> {
    if h.kind == NamespaceKind then Some(obj.name) else None
  }

  /** `get_cluster_resource_view`. */
  function ClusterResourceView(reg: Registry, objects: (Query, string) -> Option<Object>,
                               cluster: string, plural: string, name: string, req: Request): (resp: Response)
    ensures resp == Status(404, TypeNotFound) <==> forall h :: h in reg.clusterTypes ==> h.endpoint != plural
    ensures resp == Status(404, ObjectNotFound) <==>
      Find(reg.clusterTypes, plural).Some? && objects(Query(Find(reg.clusterTypes, plural).value, None, None), name).None?
    ensures resp.Status? ==> resp == Status(404, TypeNotFound) || resp == Status(404, ObjectNotFound)
    ensures Find(reg.clusterTypes, plural).Some? && objects(Query(Find(reg.clusterTypes, plural).value, None, None), name).Some? ==>
      resp.ViewPage? && resp.cluster == cluster && resp.plural == plural
    ensures resp.ViewPage? ==>
      var h := Find(reg.clusterTypes, plural).value;
      && Some(resp.resource) == objects(Query(h, None, None), name)
      && (resp.namespace.Some? <==> h.kind == NamespaceKind)
      && (resp.namespace.Some? ==> resp.namespace.value == resp.resource.name)
      && resp.view == Param(req, "view")
    ensures resp.Status? || resp.ViewPage?
  {
    match Find(reg.clusterTypes, plural)
    case None => Status(404, TypeNotFound)
    case Some(h) =>
      match objects(Query(h, None, None), name)
      case None => Status(404, ObjectNotFound)
      case Some(obj) => ViewPage(cluster, ViewNamespace(h, obj), plural, obj, Param(req, "view"))
  }

  // ---------------------------------------------------------------------------
  // Namespaced resources

  /** Resolves every segment, or none: `None` as soon as one segment has no
      resource type. */
  function ResolveAll(types: seq<Handle>, segments: seq<string>): (r: Option<seq<Handle>>)
    ensures r.Some? <==> forall i :: 0 <= i < |segments| ==> Find(types, segments[i]).Some?
    ensures r.Some? ==>
      && |r.value| == |segments|
      && forall i :: 0 <= i < |segments| ==> Some(r.value[i]) == Find(types, segments[i])
    decreases |segments|
  {
    if |segments| == 0 then Some([])
    else match Find(types, segments[0])
      case None => None
      case Some(h) =>
        match ResolveAll(types, segments[1..])
        case None => None
        case Some(rest) => Some([h] + rest)
  }

  /** The tables of some resource types in one namespace, in order. */
  function QueryAll(tables: Query -> Table, hs: seq<Handle>, namespace: string, selector: Option<string>): seq<Table> {
    seq(|hs|, i requires 0 <= i < |hs| => tables(Query(hs[i], Some(namespace), selector)))
  }

  /** The segment loop of `get_namespaced_resource_list`: look up a segment,
      stop with nothing at the first segment without a type, otherwise query
      its table in the namespace and append it to `acc`. */
  function GatherTables(types: seq<Handle>, tables: Query -> Table, segments: seq<string>, namespace: string,
                        selector: Option<string>, acc: seq<Table>): (r: Option<seq<Table>>)
    ensures r.Some? <==> forall i :: 0 <= i < |segments| ==> Find(types, segments[i]).Some?
    ensures r.Some? ==>
      && |r.value| == |acc| + |segments| && r.value[..|acc|] == acc
      && forall i :: 0 <= i < |segments| ==>
           r.value[|acc| + i] == tables(Query(Find(types, segments[i]).value, Some(namespace), selector))
    decreases |segments|
  {
    if |segments| == 0 then Some(acc)
    else match Find(types, segments[0])
      case None => None
      case Some(h) =>
        var next := acc + [tables(Query(h, Some(namespace), selector))];
        var r := GatherTables(types, tables, segments[1..], namespace, selector, next);
        assert r.Some? ==> r.value[..|acc|] == r.value[..|next|][..|acc|];
        assert forall i :: 0 < i < |segments| ==> segments[1..][i - 1] == segments[i];
        r
  }

  /** Interleaving lookups and queries, as the segment loop does, gives the
      same outcome as resolving every segment first and querying afterwards. */
  lemma GatherIsResolveThenQuery(types: seq<Handle>, tables: Query -> Table, segments: seq<string>,
                                 namespace: string, selector: Option<string>, acc: seq<Table>)
    ensures GatherTables(types, tables, segments, namespace, selector, acc) ==
      match ResolveAll(types, segments)
      case None => None
      case Some(hs) => Some(acc + QueryAll(tables, hs, namespace, selector))
  {
    var g := GatherTables(types, tables, segments, namespace, selector, acc);
    match ResolveAll(types, segments)
    case None =>
    case Some(hs) =>
      var q := acc + QueryAll(tables, hs, namespace, selector);
      forall k | 0 <= k < |q| ensures g.value[k] == q[k] {
        if k < |acc| {
          assert g.value[k] == g.value[..|acc|][k];
        } else {
          assert Some(hs[k - |acc|]) == Find(types, segments[k - |acc|]);
        }
      }
      assert g.value == q;
  }

  /** `get_namespaced_resource_list`: the plural may name several kinds
      separated by commas. All or nothing: the response is a 404 with no
      tables exactly when some segment names no namespaced resource type.
      Otherwise there is one table per segment, in segment order, each from
      the first namespaced type of that endpoint, filtered by the namespace
      and the selector parameter; a `download=tsv` request exports the
      first table only. */
  function NamespacedResourceList(reg: Registry, tables: Query -> Table, cluster: string, namespace: string,
                                  plural: string, req: Request): (resp: Response)
    ensures var segments := Split(plural, ',');
      resp == Status(404, TypeNotFound) <==>
        exists i :: 0 <= i < |segments| && forall h :: h in reg.namespacedTypes ==> h.endpoint != segments[i]
    ensures resp.Status? ==> resp == Status(404, TypeNotFound)
    ensures var segments := Split(plural, ',');
      (forall i :: 0 <= i < |segments| ==> Find(reg.namespacedTypes, segments[i]).Some?) && !WantsTsv(req) ==>
        && resp.ListPage?
        && resp.cluster == cluster && resp.namespace == Some(namespace) && resp.plural == plural
        && |resp.tables| == |segments|
        && forall i :: 0 <= i < |segments| ==>
             resp.tables[i] == tables(Query(Find(reg.namespacedTypes, segments[i]).value, Some(namespace), Param(req, "selector")))
    ensures var segments := Split(plural, ',');
      (forall i :: 0 <= i < |segments| ==> Find(reg.namespacedTypes, segments[i]).Some?) && WantsTsv(req) ==>
        resp == Attachment(DownloadTsv(req.path,
          tables(Query(Find(reg.namespacedTypes, segments[0]).value, Some(namespace), Param(req, "selector")))))
  {
    var segments := Split(plural, ',');
    match GatherTables(reg.namespacedTypes, tables, segments, namespace, Param(req, "selector"), [])
    case None =>
      var i :| 0 <= i < |segments| && Find(reg.namespacedTypes, segments[i]).None?;
      assert forall h :: h in reg.namespacedTypes ==> h.endpoint != segments[i];
      assert Split(plural, ',') == segments;
      Status(404, TypeNotFound)
    case Some(ts) =>
      if WantsTsv(req) then Attachment(DownloadTsv(req.path, ts[0]))
      else ListPage(cluster, Some(namespace), plural, ts)
  }

  /** `get_namespaced_resource_view`. A missing instance is not caught here,
      unlike in the cluster-scoped view. */
  function NamespacedResourceView(reg: Registry, objects: (Query, string) -> Option<Object>, cluster: string,
                                  namespace: string, plural: string, name: string, req: Request): (resp: Response)
    ensures resp == Status(404, TypeNotFound) <==> forall h :: h in reg.namespacedTypes ==> h.endpoint != plural
    ensures resp.Unhandled? <==>
      Find(reg.namespacedTypes, plural).Some?
      && objects(Query(Find(reg.namespacedTypes, plural).value, Some(namespace), None), name).None?
    ensures resp.Status? ==> resp == Status(404, TypeNotFound)
    ensures
      && Find(reg.namespacedTypes, plural).Some?
      && objects(Query(Find(reg.namespacedTypes, plural).value, Some(namespace), None), name).Some?
      ==>
        resp == ViewPage(cluster, Some(namespace), plural,
          objects(Query(Find(reg.namespacedTypes, plural).value, Some(namespace), None), name).value, Param(req, "view"))
    ensures resp.Status? || resp.ViewPage? || resp.Unhandled?
  {
    match Find(reg.namespacedTypes, plural)
    case None => Status(404, TypeNotFound)
    case Some(h) =>
      match objects(Query(h, Some(namespace), None), name)
      case None => Unhandled("ObjectDoesNotExist")
      case Some(obj) => ViewPage(cluster, Some(namespace), plural, obj, Param(req, "view"))
  }

  // ---------------------------------------------------------------------------
  // From discovery to dispatch

  /** A namespaced core resource the cluster serves with "get" and "list"
      resolves in the namespaced list, and the listing of a namespace returns
      the table the cluster gives for that namespace. */
  lemma CoreResourceResolves(api: Api, r: Resource, tables: Query -> Table, cluster: string, namespace: string, req: Request)
    requires AllOk(api)
    requires r in api.core.body && Listable(r) && r.namespaced
    requires !WantsTsv(req)
    ensures Startup(api).Success?
    ensures var reg := Startup(api).value;
      && Find(reg.namespacedTypes, r.name).Some?
      && (',' !in r.name ==>
            NamespacedResourceList(reg, tables, cluster, namespace, r.name, req)
            == ListPage(cluster, Some(namespace), r.name,
                 [tables(Query(Find(reg.namespacedTypes, r.name).value, Some(namespace), Param(req, "selector")))]))
  {
    StartupPlacesEveryEntry(api);
    DiscoverIsSpec(api);
    ListedMembers(CoreVersion, api.core.body);
    var e := EntryOf(CoreVersion, r);
    assert e in DiscoverApiResources(api).value;
    var reg := Startup(api).value;
    assert HandleOf(e) in reg.namespacedTypes;
    if ',' !in r.name {
      SplitWithoutSep(r.name, ',');
    }
  }
}
