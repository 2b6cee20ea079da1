/** The action the YARN application master runs when a container cluster is
    destroyed: read the cluster and the application master from the
    transition's message headers, remove the registry entry under the
    cluster's id, and hand the projection of the instance actually removed
    to the projected grid. */
module ClusterDestroying {
  import opened Wrappers

  type ClusterId = string

  /** A grid projection, known to this model only by an opaque handle. */
  datatype GridProjection = GridProjection(handle: nat)

  /** A container cluster: its id and the projection it owns. */
  datatype ContainerCluster = ContainerCluster(id: ClusterId, projection: GridProjection)

  /** The part of the application master the action touches: the registry of
      clusters by id, and the projected grid, recorded as the sequence of
      projections it has been asked to remove, oldest first. */
  datatype Appmaster = Appmaster(
    clusters: map<ClusterId, ContainerCluster>,
    removedProjections: seq<GridProjection>)

  /** The two typed header entries the action reads; either may be absent. */
  datatype Headers = Headers(cluster: Option<ContainerCluster>, appmaster: Option<Appmaster>)

  /** The null reference the action dereferences when it throws. */
  datatype NullDereference =
    | NullAppmaster  // `appmaster.clusters` with no "appmaster" header
    | NullCluster    // `cluster.getId()` with no "containercluster" header
    | NullRemoved    // `removed.getGridProjection()` when nothing was registered under the id

  /** A call the action makes on a collaborator. */
  datatype Call =
    | RegistryRemoveCall(id: ClusterId, returned: Option<ContainerCluster>)
    | RemoveProjectionCall(projection: GridProjection)

  /** One run of the action: the calls it made, in order, and either the new
      application-master state or the dereference that aborted it. */
  datatype Execution = Execution(calls: seq<Call>, outcome: Result<Appmaster, NullDereference>)

  /** Removal from the registry map: the map without `id`, and the instance
      that was stored under `id`, if any. */
  function RegistryRemove(registry: map<ClusterId, ContainerCluster>, id: ClusterId)
    : (r: (map<ClusterId, ContainerCluster>, Option<ContainerCluster>))
    ensures r.1.Some? <==> id in registry
    ensures r.1.Some? ==> r.1.value == registry[id]
    ensures r.0.Keys == registry.Keys - {id}
    ensures forall k :: k in r.0 ==> r.0[k] == registry[k]
  {
    if id in registry then (registry - {id}, Some(registry[id])) else (registry, None)
  }

  /** True when the headers carry both entries and the registry holds the cluster's id. */
  predicate Destroyable(headers: Headers) {
    && headers.appmaster.Some?
    && headers.cluster.Some?
    && headers.cluster.value.id in headers.appmaster.value.clusters
  }

  /** The destroy action. Java evaluates the receiver `appmaster.clusters`
      before the argument `cluster.getId()`, so a missing application master
      is reported ahead of a missing cluster. When the id is not registered
      the remove call has already been made (and changed nothing) before the
      dereference of its null result aborts the action. */
  function Execute(headers: Headers): (e: Execution)
    ensures e.outcome.Success? <==> Destroyable(headers)
    ensures headers.appmaster.None? ==> e == Execution([], Failure(NullAppmaster))
    ensures headers.appmaster.Some? && headers.cluster.None? ==>
              e == Execution([], Failure(NullCluster))
    ensures headers.appmaster.Some? && headers.cluster.Some? && !Destroyable(headers) ==>
              e == Execution([RegistryRemoveCall(headers.cluster.value.id, None)], Failure(NullRemoved))
    ensures Destroyable(headers) ==>
              var before := headers.appmaster.value;
              var id := headers.cluster.value.id;
              var after := e.outcome.value;
              && id !in after.clusters
              && after.clusters.Keys == before.clusters.Keys - {id}
              && (forall k :: k in after.clusters ==> after.clusters[k] == before.clusters[k])
              && e.calls == [RegistryRemoveCall(id, Some(before.clusters[id])),
                             RemoveProjectionCall(before.clusters[id].projection)]
              && after.removedProjections == before.removedProjections + [before.clusters[id].projection]
  {
    match headers.appmaster
    case None => Execution([], Failure(NullAppmaster))
    case Some(appmaster) =>
      match headers.cluster
      case None => Execution([], Failure(NullCluster))
      case Some(cluster) =>
        var (clusters', removed) := RegistryRemove(appmaster.clusters, cluster.id);
        var removeCall := RegistryRemoveCall(cluster.id, removed);
        match removed
        case None => Execution([removeCall], Failure(NullRemoved))
        case Some(instance) =>
          Execution(
            [removeCall, RemoveProjectionCall(instance.projection)],
            Success(Appmaster(clusters', appmaster.removedProjections + [instance.projection])))
  }

  /** The projection handed to the projected grid is the one of the instance
      the registry held under the id, whatever projection the header's cluster
      object carries; the header's projection is released only when the two
      coincide. */
  lemma ReleasesRemovedInstance(headers: Headers)
    requires Destroyable(headers)
    ensures var stored := headers.appmaster.value.clusters[headers.cluster.value.id];
            var e := Execute(headers);
            && e.calls[1] == RemoveProjectionCall(stored.projection)
            && Last(e.outcome.value.removedProjections) == stored.projection
            && (Last(e.outcome.value.removedProjections) == headers.cluster.value.projection
                <==> stored.projection == headers.cluster.value.projection)
  {
  }

  function Last<T>(s: seq<T>): T
    requires |s| > 0
  {
    s[|s| - 1]
  }

  /** A concrete run in which the header's cluster object and the registered
      instance share an id but not a projection: the registered one is released. */
  lemma RegisteredInstanceDiffersFromHeader()
    ensures var header := ContainerCluster("web", GridProjection(1));
            var registered := ContainerCluster("web", GridProjection(2));
            var e := Execute(Headers(Some(header), Some(Appmaster(map["web" := registered], []))));
            && e.outcome.Success?
            && e.outcome.value.removedProjections == [GridProjection(2)]
            && e.outcome.value.clusters == map[]
  {
  }

  /** Destroying the same cluster twice in a row: the second run finds no
      entry, makes only the remove call, and aborts on the null it returns,
      releasing nothing. */
  lemma SecondDestroyFails(headers: Headers)
    requires Execute(headers).outcome.Success?
    ensures var again := Execute(Headers(headers.cluster, Some(Execute(headers).outcome.value)));
            && again.outcome == Failure(NullRemoved)
            && again.calls == [RegistryRemoveCall(headers.cluster.value.id, None)]
  {
  }

  /** Destroys the clusters one after another, each run seeing the state the
      previous one left; aborts at the first run that throws. */
  function DestroyAll(appmaster: Appmaster, clusters: seq<ContainerCluster>): Result<Appmaster, NullDereference>
    decreases |clusters|
  {
    if |clusters| == 0 then Success(appmaster)
    else
      var e := Execute(Headers(Some(clusters[0]), Some(appmaster)));
      match e.outcome
      case Failure(err) => Failure(err)
      case Success(next) => DestroyAll(next, clusters[1..])
  }

  function Ids(clusters: seq<ContainerCluster>): set<ClusterId>
  {
    set i | 0 <= i < |clusters| :: clusters[i].id
  }

  function Projections(registry: map<ClusterId, ContainerCluster>, ids: seq<ClusterId>): seq<GridProjection>
    requires forall i :: 0 <= i < |ids| ==> ids[i] in registry
  {
    if |ids| == 0 then [] else [registry[ids[0]].projection] + Projections(registry, ids[1..])
  }

  function IdSeq(clusters: seq<ContainerCluster>): (ids: seq<ClusterId>)
    ensures |ids| == |clusters|
    ensures forall i :: 0 <= i < |ids| ==> ids[i] == clusters[i].id
  {
    if |clusters| == 0 then [] else [clusters[0].id] + IdSeq(clusters[1..])
  }

  /** Destroying registered clusters with pairwise distinct ids, one by one,
      empties exactly those registry entries, leaves every other entry as it
      was, and releases the registered projections in the order of the runs. */
  lemma {:induction false} DestroyDistinctRegistered(appmaster: Appmaster, clusters: seq<ContainerCluster>)
    requires forall i :: 0 <= i < |clusters| ==> clusters[i].id in appmaster.clusters
    requires forall i, j :: 0 <= i < j < |clusters| ==> clusters[i].id != clusters[j].id
    ensures var r := DestroyAll(appmaster, clusters);
            && r.Success?
            && r.value.clusters.Keys == appmaster.clusters.Keys - Ids(clusters)
            && (forall k :: k in r.value.clusters ==> r.value.clusters[k] == appmaster.clusters[k])
            && r.value.removedProjections
               == appmaster.removedProjections + Projections(appmaster.clusters, IdSeq(clusters))
    decreases |clusters|
  {
    if |clusters| > 0 {
      var e := Execute(Headers(Some(clusters[0]), Some(appmaster)));
      var next := e.outcome.value;
      var rest := clusters[1..];
      forall i | 0 <= i < |rest|
        ensures rest[i].id in next.clusters
      {
        assert rest[i] == clusters[i + 1];
      }
      forall i, j | 0 <= i < j < |rest|
        ensures rest[i].id != rest[j].id
      {
        assert rest[i] == clusters[i + 1] && rest[j] == clusters[j + 1];
      }
      DestroyDistinctRegistered(next, rest);
      assert Ids(clusters) == {clusters[0].id} + Ids(rest) by {
        forall k | k in Ids(clusters) ensures k in {clusters[0].id} + Ids(rest) {
          var i :| 0 <= i < |clusters| && clusters[i].id == k;
          if i > 0 { assert rest[i - 1] == clusters[i]; }
        }
        forall k | k in Ids(rest) ensures k in Ids(clusters) {
          var i :| 0 <= i < |rest| && rest[i].id == k;
          assert clusters[i + 1] == rest[i];
        }
      }
      assert IdSeq(clusters)[1..] == IdSeq(rest);
      ProjectionsAgree(appmaster.clusters, next.clusters, IdSeq(rest));
    }
  }

  /** Looking up projections in a registry, or in a sub-map of it that still
      holds every id asked for, gives the same projections. */
  lemma {:induction false} ProjectionsAgree(
    registry: map<ClusterId, ContainerCluster>,
    sub: map<ClusterId, ContainerCluster>,
    ids: seq<ClusterId>)
    requires forall i :: 0 <= i < |ids| ==> ids[i] in sub
    requires forall k :: k in sub ==> k in registry && sub[k] == registry[k]
    ensures Projections(sub, ids) == Projections(registry, ids)
    decreases |ids|
  {
    if |ids| > 0 {
      ProjectionsAgree(registry, sub, ids[1..]);
    }
  }
}
