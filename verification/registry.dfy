/** The resource type registry: one handle per discovered resource, split into
    the cluster-scoped and the namespaced resource types. The source builds a
    class per kind at runtime (`cluster_object_factory`,
    `namespaced_object_factory`); here a handle is a plain record whose
    `namespaced` flag stands for the base class the factory chose. */
module Registry {
  import opened Common
  import opened Discovery

  /** A resource type: the class attributes `kind`, `endpoint` and `version`,
      and whether it derives from `NamespacedAPIObject`. */
  datatype Handle = Handle(kind: string, endpoint: string, version: string, namespaced: bool)

  /** The two ordered lists `cluster_resource_types` and `namespaced_resource_types`. */
  datatype Registry = Registry(clusterTypes: seq<Handle>, namespacedTypes: seq<Handle>)

  /** The class the factories build for one discovered triple. */
  function HandleOf(e: Entry): Handle {
    Handle(e.resource.kind, e.resource.name, e.apiVersion, e.namespaced)
  }

  /** `get_namespaced_resource_types`: one handle per discovered triple, in
      discovery order; each keeps the triple's kind, name, version and scope. */
  function ResourceTypes(es: seq<Entry>): (hs: seq<Handle>)
    ensures |hs| == |es|
    ensures forall i :: 0 <= i < |es| ==>
      && hs[i].endpoint == es[i].resource.name
      && hs[i].kind == es[i].resource.kind
      && hs[i].version == es[i].apiVersion
      && hs[i].namespaced == es[i].namespaced
    decreases |es|
  {
    if |es| == 0 then [] else [HandleOf(es[0])] + ResourceTypes(es[1..])
  }

  /** The handles of one scope, in their original order. */
  function Scoped(hs: seq<Handle>, namespaced: bool): (r: seq<Handle>)
    decreases |hs|
  {
    if |hs| == 0 then []
    else (if hs[0].namespaced == namespaced then [hs[0]] else []) + Scoped(hs[1..], namespaced)
  }

  /** A handle is selected exactly when it is one of the handles and has the scope. */
  lemma {:induction false} ScopedMembers(hs: seq<Handle>, namespaced: bool)
    ensures forall h :: h in Scoped(hs, namespaced) <==> h in hs && h.namespaced == namespaced
    decreases |hs|
  {
    if |hs| > 0 {
      ScopedMembers(hs[1..], namespaced);
      assert hs == [hs[0]] + hs[1..];
    }
  }

  /** Selecting a scope keeps the relative order of the handles. */
  lemma {:induction false} ScopedAppend(a: seq<Handle>, b: seq<Handle>, namespaced: bool)
    ensures Scoped(a + b, namespaced) == Scoped(a, namespaced) + Scoped(b, namespaced)
    decreases |a|
  {
    if |a| == 0 {
      assert a + b == b;
    } else {
      var head := if a[0].namespaced == namespaced then [a[0]] else [];
      ScopedAppend(a[1..], b, namespaced);
      calc {
        Scoped(a + b, namespaced);
        { assert (a + b)[0] == a[0]; }
        head + Scoped((a + b)[1..], namespaced);
        { assert (a + b)[1..] == a[1..] + b; }
        head + (Scoped(a[1..], namespaced) + Scoped(b, namespaced));
        (head + Scoped(a[1..], namespaced)) + Scoped(b, namespaced);
      }
    }
  }

  /** The registry the loop over the resource types builds. */
  function Partition(hs: seq<Handle>): Registry {
    Registry(Scoped(hs, false), Scoped(hs, true))
  }

  /** The two lists are a split of the handles: every handle lands in exactly
      one of them, as often as it occurs. */
  lemma {:induction false} PartitionIsPermutation(hs: seq<Handle>)
    ensures multiset(Partition(hs).clusterTypes) + multiset(Partition(hs).namespacedTypes) == multiset(hs)
    ensures |Partition(hs).clusterTypes| + |Partition(hs).namespacedTypes| == |hs|
    decreases |hs|
  {
    if |hs| > 0 {
      PartitionIsPermutation(hs[1..]);
      assert hs == [hs[0]] + hs[1..];
    }
  }

  /** The registry split loop: each handle, in discovery order, is appended
      to the cluster-scoped list or to the namespaced list by its scope. */
  method Populate(hs: seq<Handle>) returns (reg: Registry)
    ensures reg == Partition(hs)
  {
    var clusterTypes: seq<Handle> := [];
    var namespacedTypes: seq<Handle> := [];
    for i := 0 to |hs|
      invariant clusterTypes == Scoped(hs[..i], false)
      invariant namespacedTypes == Scoped(hs[..i], true)
    {
      assert hs[..i + 1] == hs[..i] + [hs[i]];
      ScopedAppend(hs[..i], [hs[i]], false);
      ScopedAppend(hs[..i], [hs[i]], true);
      if hs[i].namespaced {
        namespacedTypes := namespacedTypes + [hs[i]];
      } else {
        clusterTypes := clusterTypes + [hs[i]];
      }
    }
    assert hs[..|hs|] == hs;
    reg := Registry(clusterTypes, namespacedTypes);
  }

  /** Startup: discovery, then the registry; a failed discovery publishes no registry. */
  function Startup(api: Api): Result<Registry, string> {
    match DiscoverApiResources(api)
    case Failure(p) => Failure(p)
    case Success(es) => Success(Partition(ResourceTypes(es)))
  }

  /** Startup succeeds exactly when every discovery request does, and then a
      discovered triple is in the namespaced list when it is namespaced and in
      the cluster list otherwise, as its own handle. */
  lemma StartupPlacesEveryEntry(api: Api)
    ensures Startup(api).Success? <==> AllOk(api)
    ensures Startup(api).Success? ==>
      forall e :: e in DiscoverApiResources(api).value ==>
        if e.namespaced then HandleOf(e) in Startup(api).value.namespacedTypes
        else HandleOf(e) in Startup(api).value.clusterTypes
  {
    DiscoverIsSpec(api);
    if Startup(api).Success? {
      var es := DiscoverApiResources(api).value;
      var hs := ResourceTypes(es);
      assert Startup(api).value == Registry(Scoped(hs, false), Scoped(hs, true));
      ScopedMembers(hs, false);
      ScopedMembers(hs, true);
      forall e | e in es ensures HandleOf(e) in hs {
        var i :| 0 <= i < |es| && es[i] == e;
        assert hs[i] == HandleOf(e);
      }
    }
  }

  /** Every handle of the registry comes from a discovered triple of its scope. */
  lemma StartupHandlesAreDiscovered(api: Api)
    requires Startup(api).Success?
    ensures forall h :: h in Startup(api).value.namespacedTypes ==>
      h.namespaced && exists e :: e in DiscoverApiResources(api).value && HandleOf(e) == h
    ensures forall h :: h in Startup(api).value.clusterTypes ==>
      !h.namespaced && exists e :: e in DiscoverApiResources(api).value && HandleOf(e) == h
  {
    var es := DiscoverApiResources(api).value;
    var hs := ResourceTypes(es);
    assert Startup(api).value == Registry(Scoped(hs, false), Scoped(hs, true));
    ScopedMembers(hs, false);
    ScopedMembers(hs, true);
    forall h | h in hs ensures exists e :: e in es && HandleOf(e) == h {
      var i :| 0 <= i < |hs| && hs[i] == h;
      assert es[i] in es && HandleOf(es[i]) == h;
    }
  }
}
