/** Resource discovery: which resource kinds the cluster's API serves, learned
    from the API discovery documents (`discover_api_resources`). The cluster's
    answers are plain input values; a request whose status is not a success is
    `Failed`, where the source's `raise_for_status` raises. */
module Discovery {
  import opened Common

  /** One entry of an API resource list. */
  datatype Resource = Resource(name: string, kind: string, namespaced: bool, verbs: seq<string>)

  /** The answer to one discovery request. */
  datatype Reply<+T> = Ok(body: T) | Failed

  /** One version a group offers, with the answer to the request for its resource list. */
  datatype GroupVersion = GroupVersion(groupVersion: string, resources: Reply<seq<Resource>>)

  /** One entry of the `/apis` group list. */
  datatype Group = Group(preferredVersion: string, versions: seq<GroupVersion>)

  /** The answers of the cluster to every discovery request: the core `v1`
      resource list and the `/apis` group list. */
  datatype Api = Api(core: Reply<seq<Resource>>, groups: Reply<seq<Group>>)

  /** One discovered resource: the `(namespaced, apiVersion, resource)` triple. */
  datatype Entry = Entry(namespaced: bool, apiVersion: string, resource: Resource)

  /** The version of the core API group. */
  const CoreVersion: string := "v1"

  /** The path of the group list request. */
  const GroupsPath: string := "/apis"

  /** A resource is kept when it is not a subresource (no "/" in its name,
      unlike "pods/proxy") and supports both "get" and "list". */
  predicate Listable(r: Resource) {
    '/' !in r.name && "get" in r.verbs && "list" in r.verbs
  }

  function EntryOf(version: string, r: Resource): Entry {
    Entry(r.namespaced, version, r)
  }

  /** The entries a resource list of `version` contributes, in listing order. */
  function Listed(version: string, rs: seq<Resource>): seq<Entry>
    decreases |rs|
  {
    if |rs| == 0 then []
    else (if Listable(rs[0]) then [EntryOf(version, rs[0])] else []) + Listed(version, rs[1..])
  }

  /** A resource list yields only listable entries, tagged with the list's
      version and the resource's scope, and every listable resource is among them. */
  lemma {:induction false} ListedMembers(version: string, rs: seq<Resource>)
    ensures |Listed(version, rs)| <= |rs|
    ensures forall e :: e in Listed(version, rs) ==>
      Listable(e.resource) && e.apiVersion == version && e.namespaced == e.resource.namespaced
    ensures forall r :: r in rs && Listable(r) ==> EntryOf(version, r) in Listed(version, rs)
    decreases |rs|
  {
    if |rs| > 0 {
      ListedMembers(version, rs[1..]);
      assert rs == [rs[0]] + rs[1..];
    }
  }

  /** Listing keeps the order of the resource list. */
  lemma {:induction false} ListedAppend(version: string, a: seq<Resource>, b: seq<Resource>)
    ensures Listed(version, a + b) == Listed(version, a) + Listed(version, b)
    decreases |a|
  {
    if |a| == 0 {
      assert a + b == b;
    } else {
      assert (a + b)[0] == a[0];
      assert (a + b)[1..] == a[1..] + b;
      ListedAppend(version, a[1..], b);
    }
  }

  /** The names of the resources of some entries. */
  function Names(es: seq<Entry>): set<string>
    decreases |es|
  {
    if |es| == 0 then {} else {es[0].resource.name} + Names(es[1..])
  }

  lemma {:induction false} NamesMembers(es: seq<Entry>)
    ensures forall e :: e in es ==> e.resource.name in Names(es)
    decreases |es|
  {
    if |es| > 0 {
      NamesMembers(es[1..]);
      assert es == [es[0]] + es[1..];
    }
  }

  lemma {:induction false} NamesAppend(a: seq<Entry>, b: seq<Entry>)
    ensures Names(a + b) == Names(a) + Names(b)
    decreases |a|
  {
    if |a| == 0 {
      assert a + b == b;
    } else {
      assert (a + b)[0] == a[0];
      assert (a + b)[1..] == a[1..] + b;
      NamesAppend(a[1..], b);
    }
  }

  /** The entries whose resource name has not been yielded, in order. */
  function NotYielded(es: seq<Entry>, yielded: set<string>): (r: seq<Entry>)
    ensures forall e :: e in r <==> e in es && e.resource.name !in yielded
    decreases |es|
  {
    if |es| == 0 then []
    else (if es[0].resource.name in yielded then [] else [es[0]]) + NotYielded(es[1..], yielded)
  }

  // ---------------------------------------------------------------------------
  // The per-group loop, as the source runs it

  /** The state of one group's loop: entries yielded so far, the `yielded`
      name set, and the `non_preferred` buffer. */
  datatype GroupState = GroupState(emitted: seq<Entry>, yielded: set<string>, nonPreferred: seq<Entry>)

  /** The inner loop over one version's resource list. */
  function CollectResources(pref: string, gv: string, rs: seq<Resource>, st: GroupState): GroupState
    decreases |rs|
  {
    if |rs| == 0 then st
    else
      CollectResources(pref, gv, rs[1..], Step(pref, gv, rs[0], st))
  }

  /** One iteration of the inner loop: a listable resource of the preferred
      version is yielded and its name recorded; one of another version is buffered. */
  function Step(pref: string, gv: string, r: Resource, st: GroupState): GroupState {
    if !Listable(r) then st
    else if gv == pref then GroupState(st.emitted + [EntryOf(gv, r)], st.yielded + {r.name}, st.nonPreferred)
    else GroupState(st.emitted, st.yielded, st.nonPreferred + [EntryOf(gv, r)])
  }

  /** The loop over a group's versions; the first failing request aborts it. */
  function CollectVersions(pref: string, vs: seq<GroupVersion>, st: GroupState): Result<GroupState, string>
    decreases |vs|
  {
    if |vs| == 0 then Success(st)
    else match vs[0].resources
      case Failed => Failure(vs[0].groupVersion)
      case Ok(rs) => CollectVersions(pref, vs[1..], CollectResources(pref, vs[0].groupVersion, rs, st))
  }

  /** One group: its preferred-version entries, then the buffered
      non-preferred entries whose name the preferred version did not yield. */
  function DiscoverGroup(g: Group): Result<seq<Entry>, string> {
    match CollectVersions(g.preferredVersion, g.versions, GroupState([], {}, []))
    case Failure(p) => Failure(p)
    case Success(st) => Success(st.emitted + NotYielded(st.nonPreferred, st.yielded))
  }

  /** The groups in order, each with a fresh `yielded` set. */
  function DiscoverGroups(gs: seq<Group>): Result<seq<Entry>, string>
    decreases |gs|
  {
    if |gs| == 0 then Success([])
    else match DiscoverGroup(gs[0])
      case Failure(p) => Failure(p)
      case Success(es) =>
        match DiscoverGroups(gs[1..])
        case Failure(p) => Failure(p)
        case Success(rest) => Success(es + rest)
  }

  /** `discover_api_resources`: the core entries, then every group's entries;
      a failed request aborts discovery and names the request that failed. */
  function DiscoverApiResources(api: Api): Result<seq<Entry>, string> {
    match api.core
    case Failed => Failure(CoreVersion)
    case Ok(core) =>
      match api.groups
      case Failed => Failure(GroupsPath)
      case Ok(gs) =>
        match DiscoverGroups(gs)
        case Failure(p) => Failure(p)
        case Success(es) => Success(Listed(CoreVersion, core) + es)
  }

  // ---------------------------------------------------------------------------
  // The reference definition of discovery

  /** The resource list of a version, or nothing when its request failed. */
  function ResourcesOf(v: GroupVersion): seq<Resource> {
    match v.resources
    case Ok(rs) => rs
    case Failed => []
  }

  /** The entries of every version whose name is the preferred version, in order. */
  function PreferredEntries(pref: string, vs: seq<GroupVersion>): seq<Entry>
    decreases |vs|
  {
    if |vs| == 0 then []
    else (if vs[0].groupVersion == pref then Listed(pref, ResourcesOf(vs[0])) else [])
         + PreferredEntries(pref, vs[1..])
  }

  /** The entries of every other version, in order. */
  function OtherEntries(pref: string, vs: seq<GroupVersion>): seq<Entry>
    decreases |vs|
  {
    if |vs| == 0 then []
    else (if vs[0].groupVersion == pref then [] else Listed(vs[0].groupVersion, ResourcesOf(vs[0])))
         + OtherEntries(pref, vs[1..])
  }

  /** What one group contributes: all preferred-version entries, then every
      other entry whose name the preferred version does not list. */
  function GroupSpec(g: Group): seq<Entry> {
    var preferred := PreferredEntries(g.preferredVersion, g.versions);
    preferred + NotYielded(OtherEntries(g.preferredVersion, g.versions), Names(preferred))
  }

  function GroupsSpec(gs: seq<Group>): seq<Entry>
    decreases |gs|
  {
    if |gs| == 0 then [] else GroupSpec(gs[0]) + GroupsSpec(gs[1..])
  }

  predicate VersionsOk(vs: seq<GroupVersion>) {
    forall i :: 0 <= i < |vs| ==> vs[i].resources.Ok?
  }

  predicate GroupsOk(gs: seq<Group>) {
    forall i :: 0 <= i < |gs| ==> VersionsOk(gs[i].versions)
  }

  /** Every discovery request succeeds. */
  predicate AllOk(api: Api) {
    api.core.Ok? && api.groups.Ok? && GroupsOk(api.groups.body)
  }

  // ---------------------------------------------------------------------------
  // The loop agrees with the reference definition

  /** The state after one version's resource list: its listable resources
      appended to the emitted entries and their names recorded (preferred
      version), or appended to the buffer (any other version). */
  function AfterListing(pref: string, gv: string, rs: seq<Resource>, st: GroupState): GroupState {
    if gv == pref then GroupState(st.emitted + Listed(gv, rs), st.yielded + Names(Listed(gv, rs)), st.nonPreferred)
    else GroupState(st.emitted, st.yielded, st.nonPreferred + Listed(gv, rs))
  }

  /** One step is `AfterListing` of a one-resource list. */
  lemma StepEffect(pref: string, gv: string, r: Resource, st: GroupState)
    ensures Step(pref, gv, r, st) == AfterListing(pref, gv, [r], st)
  {
    var l := Listed(gv, [r]);
    assert [r][1..] == [];
    assert Listed(gv, []) == [];
    if Listable(r) {
      assert l == [EntryOf(gv, r)];
      assert Names(l) == {r.name};
    } else {
      assert l == [];
      assert st.emitted + l == st.emitted;
      assert st.nonPreferred + l == st.nonPreferred;
      assert st.yielded + Names(l) == st.yielded;
    }
  }

  /** Processing one list after another is processing their concatenation. */
  lemma AfterListingAppend(pref: string, gv: string, a: seq<Resource>, b: seq<Resource>, st: GroupState)
    ensures AfterListing(pref, gv, b, AfterListing(pref, gv, a, st)) == AfterListing(pref, gv, a + b, st)
  {
    ListedAppend(gv, a, b);
    var la := Listed(gv, a);
    var lb := Listed(gv, b);
    if gv == pref {
      NamesAppend(la, lb);
      var mid := GroupState(st.emitted + la, st.yielded + Names(la), st.nonPreferred);
      assert AfterListing(pref, gv, a, st) == mid;
      var e := st.emitted + la + lb;
      var y := st.yielded + Names(la) + Names(lb);
      assert AfterListing(pref, gv, b, mid) == GroupState(e, y, st.nonPreferred);
      assert e == st.emitted + (la + lb);
      assert y == st.yielded + Names(la + lb);
    } else {
      var mid := GroupState(st.emitted, st.yielded, st.nonPreferred + la);
      assert AfterListing(pref, gv, a, st) == mid;
      var n := st.nonPreferred + la + lb;
      assert AfterListing(pref, gv, b, mid) == GroupState(st.emitted, st.yielded, n);
      assert n == st.nonPreferred + (la + lb);
    }
  }

  /** The inner loop has the effect of `AfterListing`. */
  lemma {:induction false} CollectResourcesEffect(pref: string, gv: string, rs: seq<Resource>, st: GroupState)
    ensures CollectResources(pref, gv, rs, st) == AfterListing(pref, gv, rs, st)
    decreases |rs|
  {
    if |rs| == 0 {
      assert Listed(gv, rs) == [];
      assert st.emitted + [] == st.emitted;
      assert st.nonPreferred + [] == st.nonPreferred;
      assert st.yielded + Names([]) == st.yielded;
    } else {
      var next := Step(pref, gv, rs[0], st);
      CollectResourcesEffect(pref, gv, rs[1..], next);
      StepEffect(pref, gv, rs[0], st);
      AfterListingAppend(pref, gv, [rs[0]], rs[1..], st);
      assert [rs[0]] + rs[1..] == rs;
    }
  }

  /** The state after all of a group's versions, by the reference definition. */
  function AfterVersions(pref: string, vs: seq<GroupVersion>, st: GroupState): GroupState {
    GroupState(st.emitted + PreferredEntries(pref, vs),
               st.yielded + Names(PreferredEntries(pref, vs)),
               st.nonPreferred + OtherEntries(pref, vs))
  }

  lemma VersionsOkSplit(vs: seq<GroupVersion>)
    requires |vs| > 0
    ensures VersionsOk(vs) <==> vs[0].resources.Ok? && VersionsOk(vs[1..])
  {
    if vs[0].resources.Ok? && VersionsOk(vs[1..]) {
      forall i | 0 <= i < |vs| ensures vs[i].resources.Ok? {
        if i > 0 { assert vs[i] == vs[1..][i - 1]; }
      }
    }
  }

  /** The version loop succeeds exactly when every version's request does,
      and then it has gathered the preferred and the other entries in order. */
  lemma {:induction false} CollectVersionsEffect(pref: string, vs: seq<GroupVersion>, st: GroupState)
    ensures CollectVersions(pref, vs, st).Success? <==> VersionsOk(vs)
    ensures VersionsOk(vs) ==> CollectVersions(pref, vs, st) == Success(AfterVersions(pref, vs, st))
    decreases |vs|
  {
    if |vs| == 0 {
      assert st.emitted + [] == st.emitted;
      assert st.nonPreferred + [] == st.nonPreferred;
      assert st.yielded + {} == st.yielded;
    } else {
      VersionsOkSplit(vs);
      match vs[0].resources
      case Failed =>
      case Ok(rs) =>
        var gv := vs[0].groupVersion;
        var next := CollectResources(pref, gv, rs, st);
        assert CollectVersions(pref, vs, st) == CollectVersions(pref, vs[1..], next);
        CollectResourcesEffect(pref, gv, rs, st);
        CollectVersionsEffect(pref, vs[1..], next);
        AfterVersionsStep(pref, vs, st);
    }
  }

  /** Handling the first version and then the rest is handling them all. */
  lemma AfterVersionsStep(pref: string, vs: seq<GroupVersion>, st: GroupState)
    requires |vs| > 0 && vs[0].resources.Ok?
    ensures AfterVersions(pref, vs[1..], AfterListing(pref, vs[0].groupVersion, vs[0].resources.body, st))
         == AfterVersions(pref, vs, st)
  {
    var gv := vs[0].groupVersion;
    var l := Listed(gv, vs[0].resources.body);
    var p' := PreferredEntries(pref, vs[1..]);
    var o' := OtherEntries(pref, vs[1..]);
    assert ResourcesOf(vs[0]) == vs[0].resources.body;
    if gv == pref {
      assert PreferredEntries(pref, vs) == l + p';
      assert OtherEntries(pref, vs) == o';
      assert st.emitted + l + p' == st.emitted + (l + p');
      NamesAppend(l, p');
      assert st.yielded + Names(l) + Names(p') == st.yielded + Names(l + p');
    } else {
      assert PreferredEntries(pref, vs) == p';
      assert OtherEntries(pref, vs) == l + o';
      assert st.nonPreferred + l + o' == st.nonPreferred + (l + o');
    }
  }

  /** A group's loop agrees with the reference definition: it fails exactly
      when one of its version requests fails. */
  lemma DiscoverGroupIsSpec(g: Group)
    ensures DiscoverGroup(g).Success? <==> VersionsOk(g.versions)
    ensures VersionsOk(g.versions) ==> DiscoverGroup(g) == Success(GroupSpec(g))
  {
    var st0 := GroupState([], {}, []);
    CollectVersionsEffect(g.preferredVersion, g.versions, st0);
    var p := PreferredEntries(g.preferredVersion, g.versions);
    var o := OtherEntries(g.preferredVersion, g.versions);
    assert [] + p == p;
    assert [] + o == o;
    assert {} + Names(p) == Names(p);
  }

  lemma {:induction false} DiscoverGroupsIsSpec(gs: seq<Group>)
    ensures DiscoverGroups(gs).Success? <==> GroupsOk(gs)
    ensures GroupsOk(gs) ==> DiscoverGroups(gs) == Success(GroupsSpec(gs))
    decreases |gs|
  {
    if |gs| > 0 {
      DiscoverGroupIsSpec(gs[0]);
      DiscoverGroupsIsSpec(gs[1..]);
      assert GroupsOk(gs) <==> VersionsOk(gs[0].versions) && GroupsOk(gs[1..]) by {
        if VersionsOk(gs[0].versions) && GroupsOk(gs[1..]) {
          forall i | 0 <= i < |gs| ensures VersionsOk(gs[i].versions) {
            if i > 0 { assert gs[i] == gs[1..][i - 1]; }
          }
        }
      }
    }
  }

  /** Discovery succeeds exactly when every request succeeds, and then it is
      the core entries (tagged "v1", in listing order, never deduplicated)
      followed by each group's reference entries, group by group. */
  lemma DiscoverIsSpec(api: Api)
    ensures DiscoverApiResources(api).Success? <==> AllOk(api)
    ensures AllOk(api) ==>
      DiscoverApiResources(api) == Success(Listed(CoreVersion, api.core.body) + GroupsSpec(api.groups.body))
  {
    if api.core.Ok? && api.groups.Ok? {
      DiscoverGroupsIsSpec(api.groups.body);
    }
  }

  /** A failed discovery names the request that failed: the core list, the
      group list, or one version of some group. */
  lemma {:induction false} DiscoverGroupsFailure(gs: seq<Group>)
    requires DiscoverGroups(gs).Failure?
    ensures exists i, j ::
      && 0 <= i < |gs| && 0 <= j < |gs[i].versions|
      && gs[i].versions[j].resources.Failed?
      && gs[i].versions[j].groupVersion == DiscoverGroups(gs).error
    decreases |gs|
  {
    if DiscoverGroup(gs[0]).Failure? {
      CollectVersionsFailure(gs[0].preferredVersion, gs[0].versions, GroupState([], {}, []));
      var j :| 0 <= j < |gs[0].versions| && gs[0].versions[j].resources.Failed?
        && gs[0].versions[j].groupVersion == DiscoverGroups(gs).error;
      assert gs[0].versions[j].groupVersion == DiscoverGroups(gs).error;
    } else {
      DiscoverGroupsFailure(gs[1..]);
      var i, j :| 0 <= i < |gs[1..]| && 0 <= j < |gs[1..][i].versions|
        && gs[1..][i].versions[j].resources.Failed?
        && gs[1..][i].versions[j].groupVersion == DiscoverGroups(gs[1..]).error;
      assert gs[i + 1].versions[j].groupVersion == DiscoverGroups(gs).error;
    }
  }

  lemma {:induction false} CollectVersionsFailure(pref: string, vs: seq<GroupVersion>, st: GroupState)
    requires CollectVersions(pref, vs, st).Failure?
    ensures exists j ::
      && 0 <= j < |vs| && vs[j].resources.Failed?
      && vs[j].groupVersion == CollectVersions(pref, vs, st).error
    decreases |vs|
  {
    match vs[0].resources
    case Failed =>
      assert vs[0].groupVersion == CollectVersions(pref, vs, st).error;
    case Ok(rs) =>
      var next := CollectResources(pref, vs[0].groupVersion, rs, st);
      CollectVersionsFailure(pref, vs[1..], next);
      var j :| 0 <= j < |vs[1..]| && vs[1..][j].resources.Failed?
        && vs[1..][j].groupVersion == CollectVersions(pref, vs[1..], next).error;
      assert vs[j + 1].groupVersion == CollectVersions(pref, vs, st).error;
  }

  /** The error of a failed discovery is the `version` argument of a request
      that did not succeed. */
  lemma DiscoverFailureNamesRequest(api: Api)
    requires DiscoverApiResources(api).Failure?
    ensures var p := DiscoverApiResources(api).error;
      (api.core.Failed? && p == CoreVersion)
      || (api.core.Ok? && api.groups.Failed? && p == GroupsPath)
      || (api.core.Ok? && api.groups.Ok? && exists i, j ::
            0 <= i < |api.groups.body| && 0 <= j < |api.groups.body[i].versions|
            && api.groups.body[i].versions[j].resources.Failed?
            && api.groups.body[i].versions[j].groupVersion == p)
  {
    if api.core.Ok? && api.groups.Ok? {
      DiscoverGroupsFailure(api.groups.body);
    }
  }

  // ---------------------------------------------------------------------------
  // Properties of the reference definition

  /** Preferred entries are exactly the listable resources of the preferred
      version, tagged with it. */
  lemma {:induction false} PreferredEntriesMembers(pref: string, vs: seq<GroupVersion>)
    ensures forall e :: e in PreferredEntries(pref, vs) ==> e.apiVersion == pref && Listable(e.resource)
    ensures forall j, r :: 0 <= j < |vs| && vs[j].groupVersion == pref && r in ResourcesOf(vs[j]) && Listable(r) ==>
      EntryOf(pref, r) in PreferredEntries(pref, vs)
    decreases |vs|
  {
    if |vs| > 0 {
      PreferredEntriesMembers(pref, vs[1..]);
      ListedMembers(pref, ResourcesOf(vs[0]));
      forall j, r | 0 <= j < |vs| && vs[j].groupVersion == pref && r in ResourcesOf(vs[j]) && Listable(r)
        ensures EntryOf(pref, r) in PreferredEntries(pref, vs)
      {
        if j > 0 {
          assert vs[j] == vs[1..][j - 1];
        }
      }
    }
  }

  /** Other entries are exactly the listable resources of the other versions,
      each tagged with its own version. */
  lemma {:induction false} OtherEntriesMembers(pref: string, vs: seq<GroupVersion>)
    ensures forall e :: e in OtherEntries(pref, vs) ==> e.apiVersion != pref && Listable(e.resource)
    ensures forall j, r :: 0 <= j < |vs| && vs[j].groupVersion != pref && r in ResourcesOf(vs[j]) && Listable(r) ==>
      EntryOf(vs[j].groupVersion, r) in OtherEntries(pref, vs)
    decreases |vs|
  {
    if |vs| > 0 {
      OtherEntriesMembers(pref, vs[1..]);
      ListedMembers(vs[0].groupVersion, ResourcesOf(vs[0]));
      forall j, r | 0 <= j < |vs| && vs[j].groupVersion != pref && r in ResourcesOf(vs[j]) && Listable(r)
        ensures EntryOf(vs[j].groupVersion, r) in OtherEntries(pref, vs)
      {
        if j > 0 {
          assert vs[j] == vs[1..][j - 1];
        }
      }
    }
  }

  /** A listable resource of the preferred version is always emitted, and its
      name is recorded as yielded. */
  lemma PreferredAlwaysEmitted(g: Group, j: nat, r: Resource)
    requires j < |g.versions| && g.versions[j].groupVersion == g.preferredVersion
    requires r in ResourcesOf(g.versions[j]) && Listable(r)
    ensures EntryOf(g.preferredVersion, r) in GroupSpec(g)
    ensures r.name in Names(PreferredEntries(g.preferredVersion, g.versions))
  {
    PreferredEntriesMembers(g.preferredVersion, g.versions);
    NamesMembers(PreferredEntries(g.preferredVersion, g.versions));
  }

  /** A listable resource of any other version is emitted exactly when the
      preferred version yielded no resource of the same name. */
  lemma OtherEmittedUnlessYielded(g: Group, j: nat, r: Resource)
    requires j < |g.versions| && g.versions[j].groupVersion != g.preferredVersion
    requires r in ResourcesOf(g.versions[j]) && Listable(r)
    ensures EntryOf(g.versions[j].groupVersion, r) in GroupSpec(g)
        <==> r.name !in Names(PreferredEntries(g.preferredVersion, g.versions))
  {
    PreferredEntriesMembers(g.preferredVersion, g.versions);
    OtherEntriesMembers(g.preferredVersion, g.versions);
  }

  /** Within a group, the preferred-version entries come first; every entry
      after them belongs to another version. */
  lemma PreferredComeFirst(g: Group)
    ensures var p := PreferredEntries(g.preferredVersion, g.versions);
      && |p| <= |GroupSpec(g)|
      && GroupSpec(g)[..|p|] == p
      && forall k :: |p| <= k < |GroupSpec(g)| ==> GroupSpec(g)[k].apiVersion != g.preferredVersion
  {
    var p := PreferredEntries(g.preferredVersion, g.versions);
    var rest := NotYielded(OtherEntries(g.preferredVersion, g.versions), Names(p));
    OtherEntriesMembers(g.preferredVersion, g.versions);
    assert GroupSpec(g) == p + rest;
    forall k | |p| <= k < |GroupSpec(g)| ensures GroupSpec(g)[k].apiVersion != g.preferredVersion {
      assert GroupSpec(g)[k] == rest[k - |p|];
      assert rest[k - |p|] in rest;
    }
  }

  /** Groups are handled independently: the `yielded` set of one group never
      suppresses an entry of another. */
  lemma {:induction false} GroupsIndependent(a: seq<Group>, b: seq<Group>)
    ensures GroupsSpec(a + b) == GroupsSpec(a) + GroupsSpec(b)
    decreases |a|
  {
    if |a| == 0 {
      assert a + b == b;
    } else {
      assert (a + b)[0] == a[0];
      assert (a + b)[1..] == a[1..] + b;
      GroupsIndependent(a[1..], b);
    }
  }

  lemma {:induction false} GroupsSpecListable(gs: seq<Group>)
    ensures forall e :: e in GroupsSpec(gs) ==> Listable(e.resource)
    decreases |gs|
  {
    if |gs| > 0 {
      GroupsSpecListable(gs[1..]);
      PreferredEntriesMembers(gs[0].preferredVersion, gs[0].versions);
      OtherEntriesMembers(gs[0].preferredVersion, gs[0].versions);
    }
  }

  /** Discovery emits neither subresources (a "/" in the name) nor resources
      lacking the "get" or the "list" verb. */
  lemma DiscoverOnlyListable(api: Api)
    requires DiscoverApiResources(api).Success?
    ensures forall e :: e in DiscoverApiResources(api).value ==>
      '/' !in e.resource.name && "get" in e.resource.verbs && "list" in e.resource.verbs
  {
    DiscoverIsSpec(api);
    ListedMembers(CoreVersion, api.core.body);
    GroupsSpecListable(api.groups.body);
  }

  /** The core entries come first, in listing order, each tagged "v1" with its
      own scope flag, and every listable core resource is among them. */
  lemma DiscoverCoreFirst(api: Api)
    requires DiscoverApiResources(api).Success?
    ensures var core := Listed(CoreVersion, api.core.body);
      && DiscoverApiResources(api).value[..|core|] == core
      && (forall e :: e in core ==> e.apiVersion == "v1" && e.namespaced == e.resource.namespaced)
      && (forall r :: r in api.core.body && Listable(r) ==> Entry(r.namespaced, "v1", r) in core)
  {
    DiscoverIsSpec(api);
    ListedMembers(CoreVersion, api.core.body);
  }

  /** A resource name that two different non-preferred versions serve, and
      that the preferred version did not yield, is emitted twice: once per
      version. */
  lemma DuplicateNonPreferredKept(g: Group, j1: nat, j2: nat, r1: Resource, r2: Resource)
    requires VersionsOk(g.versions)
    requires j1 < |g.versions| && j2 < |g.versions|
    requires g.versions[j1].groupVersion != g.preferredVersion && g.versions[j2].groupVersion != g.preferredVersion
    requires g.versions[j1].groupVersion != g.versions[j2].groupVersion
    requires r1 in ResourcesOf(g.versions[j1]) && Listable(r1)
    requires r2 in ResourcesOf(g.versions[j2]) && Listable(r2)
    requires r1.name == r2.name && r1.name !in Names(PreferredEntries(g.preferredVersion, g.versions))
    ensures DiscoverGroup(g).Success?
    ensures var e1 := EntryOf(g.versions[j1].groupVersion, r1);
      var e2 := EntryOf(g.versions[j2].groupVersion, r2);
      && e1 in DiscoverGroup(g).value && e2 in DiscoverGroup(g).value
      && e1 != e2 && e1.resource.name == e2.resource.name
  {
    DiscoverGroupIsSpec(g);
    OtherEmittedUnlessYielded(g, j1, r1);
    OtherEmittedUnlessYielded(g, j2, r2);
  }

  /** An instance: `foo` is served by "example.io/v1" and
      "example.io/v1beta1" but not by the preferred "example.io/v2". */
  lemma DuplicateNonPreferredExample(foo: Resource)
    requires Listable(foo)
    ensures var g := Group("example.io/v2", [
        GroupVersion("example.io/v2", Ok([])),
        GroupVersion("example.io/v1", Ok([foo])),
        GroupVersion("example.io/v1beta1", Ok([foo]))]);
      DiscoverGroup(g) == Success([Entry(foo.namespaced, "example.io/v1", foo), Entry(foo.namespaced, "example.io/v1beta1", foo)])
  {
    var vs := [
        GroupVersion("example.io/v2", Ok([])),
        GroupVersion("example.io/v1", Ok([foo])),
        GroupVersion("example.io/v1beta1", Ok([foo]))];
    var g := Group("example.io/v2", vs);
    DiscoverGroupIsSpec(g);
    assert VersionsOk(vs);
    var e1 := Entry(foo.namespaced, "example.io/v1", foo);
    var e2 := Entry(foo.namespaced, "example.io/v1beta1", foo);
    assert Listed("example.io/v1", [foo]) == [e1];
    assert Listed("example.io/v1beta1", [foo]) == [e2];
    assert vs[1..][1..][1..] == [];
    assert PreferredEntries("example.io/v2", vs[1..][1..][1..]) == [];
    assert PreferredEntries("example.io/v2", vs[1..][1..]) == [];
    assert PreferredEntries("example.io/v2", vs[1..]) == [];
    assert Listed("example.io/v2", []) == [];
    assert PreferredEntries("example.io/v2", vs) == [];
    assert OtherEntries("example.io/v2", vs[1..][1..][1..]) == [];
    assert OtherEntries("example.io/v2", vs[1..][1..]) == [e2];
    assert OtherEntries("example.io/v2", vs[1..]) == [e1] + [e2];
    assert OtherEntries("example.io/v2", vs) == [e1, e2];
    assert Names([]) == {};
    assert [e1, e2][1..] == [e2];
    assert NotYielded([e2], {}) == [e2];
    assert NotYielded([e1, e2], {}) == [e1, e2];
  }
}
