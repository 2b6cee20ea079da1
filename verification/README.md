# Spring for Apache Hadoop: cluster destroy action and converting iterable

This project models two small pieces of Spring for Apache Hadoop in Dafny and proves properties about them.

1. **`ClusterDestroyingAction`** (module `ClusterDestroying`, `cluster_destroying.dfy`). This is the state-machine action a YARN application master runs when it destroys a container cluster. The action reads two entries from the transition's message headers: `"containercluster"` and `"appmaster"`. It removes the application master's registry entry under the cluster's id. It then hands the grid projection of the instance that was removed to the projected grid's `removeProjection`.
   - The headers are a record of optional entries.
   - The registry is a `map<string, ContainerCluster>`.
   - The projected grid is the sequence of projections it has been asked to remove.
   - `Execute` is a pure function. It returns the calls the action made, in order, and either the new application-master state or the null dereference that aborted the run.
2. **`ConversionServiceIterableAdapter`** (module `ConversionIterable`, `conversion_iterable.dfy`). This is an `Iterable` that converts each element of a wrapped `Iterable` on the way out.
   - The wrapped iterator is modelled as a `java.util.Iterator` over a sequence-backed collection. It holds a cursor, a flag saying whether `remove` is currently allowed, and a flag saying whether the collection supports removal.
   - When `remove` is not allowed for both reasons at once, the modelled iterator reports UnsupportedOperation first. Iterators of unmodifiable collection wrappers check in that order.
   - The adapter and the iterators it hands out share one collection. A removal through an iterator therefore shows in every later `iterator()` call (`RemoveShared`).
   - The conversion service is an uninterpreted total function of a value and the target type.
   - Every operation is proved against the reference meaning `MapConvert`, which converts every value in order.

`wrappers.dfy` holds the `Option` and `Result` types both models use.

### Failure paths of the destroy action
Destroy is not idempotent. `appmaster.clusters.remove(id)` returns null when the id is not registered, and line 28 then dereferences that null. The model follows the code:
- `Execute` fails with `NullRemoved` in that case, after making only the remove call.
- `SecondDestroyFails` proves that destroying the same cluster twice in a row fails the second time.

A missing `"appmaster"` or `"containercluster"` header entry is a `NullPointerException` at line 27. `Execute` reports which reference was null.

## Model

| member | source | states |
|---|---|---|
| ClusterDestroying.RegistryRemove | spring-yarn/spring-yarn-core/src/main/java/org/springframework/yarn/am/cluster/ClusterDestroyingAction.java:27 | Removing an id from the registry returns the instance stored under that id, or nothing if the id is absent. Afterwards the id's key is gone and every other entry keeps its value. |
| ClusterDestroying.Execute | spring-yarn/spring-yarn-core/src/main/java/org/springframework/yarn/am/cluster/ClusterDestroyingAction.java:24-29 | The action succeeds exactly when both header entries are present and the cluster's id is registered. On success: the id is no longer in the registry; no other entry changes; the calls are one registry remove followed by exactly one `removeProjection` of the removed instance's projection; that projection is appended to the grid's log. On failure: a missing appmaster is reported before a missing cluster, and neither makes any call. An unregistered id makes only the remove call and then fails on its null result. |
| ClusterDestroying.ReleasesRemovedInstance | spring-yarn/spring-yarn-core/src/main/java/org/springframework/yarn/am/cluster/ClusterDestroyingAction.java:27-28 | The projection released is the one of the instance registered under the id. The header cluster's projection is released if and only if it equals the registered one. |
| ClusterDestroying.RegisteredInstanceDiffersFromHeader | spring-yarn/spring-yarn-core/src/main/java/org/springframework/yarn/am/cluster/ClusterDestroyingAction.java:27-28 | Concrete case: the header cluster and the registered cluster share the id "web" but have different projections. The registered projection is the one released, and the registry ends empty. |
| ClusterDestroying.SecondDestroyFails | spring-yarn/spring-yarn-core/src/main/java/org/springframework/yarn/am/cluster/ClusterDestroyingAction.java:27-28 | Running the action again on the state a successful run left fails with the null dereference of `removed`. That second run makes only the remove call and releases nothing. |
| ClusterDestroying.DestroyDistinctRegistered | spring-yarn/spring-yarn-core/src/main/java/org/springframework/yarn/am/cluster/ClusterDestroyingAction.java:24-29 | Destroying registered clusters with distinct ids one after another succeeds. It removes exactly those ids and leaves every other entry unchanged. It releases the registered projections in the order of the runs. |
| ConversionIterable.SourceIteratorOf | src/main/java/org/springframework/data/hadoop/util/ConversionServiceIterableAdapter.java:40 | `values.iterator()` starts at the first value with no element to remove. |
| ConversionIterable.SourceHasNext | src/main/java/org/springframework/data/hadoop/util/ConversionServiceIterableAdapter.java:43 | The wrapped `hasNext` holds exactly when the wrapped `next` would return an element rather than throw NoSuchElement. |
| ConversionIterable.SourceNext | src/main/java/org/springframework/data/hadoop/util/ConversionServiceIterableAdapter.java:47 | The wrapped `next` succeeds exactly when values remain. It returns the value at the cursor and advances the cursor by one. Otherwise it fails with NoSuchElement. |
| ConversionIterable.SourceRemove | src/main/java/org/springframework/data/hadoop/util/ConversionServiceIterableAdapter.java:52 | The wrapped `remove` deletes the value the last `next` returned. The values before and after it keep their order, and the cursor steps back by one. It fails with UnsupportedOperation when the collection cannot remove, and with IllegalState when no `next` came since the last remove. |
| ConversionIterable.MapConvert | src/main/java/org/springframework/data/hadoop/util/ConversionServiceIterableAdapter.java:37-49 | Reference meaning of the adapter: a sequence of the same length whose i-th element is `convert(values[i], targetType)`. |
| ConversionIterable.Iterator | src/main/java/org/springframework/data/hadoop/util/ConversionServiceIterableAdapter.java:37-40 | Each `iterator()` call starts a new wrapped iterator at the beginning of the adapter's values. This holds for the modelled wrapped collections, whose `iterator()` always starts a fresh traversal. That iterator carries the adapter's target type and conversion service. |
| ConversionIterable.HasNext | src/main/java/org/springframework/data/hadoop/util/ConversionServiceIterableAdapter.java:42-44 | `hasNext` holds exactly when the wrapped iterator still has unvisited values. |
| ConversionIterable.Next | src/main/java/org/springframework/data/hadoop/util/ConversionServiceIterableAdapter.java:46-49 | `next` succeeds exactly when `hasNext` holds. It returns the converted value at the wrapped cursor and leaves the wrapped iterator exactly one step further. On an exhausted iterator it fails with the wrapped iterator's own error. |
| ConversionIterable.Remove | src/main/java/org/springframework/data/hadoop/util/ConversionServiceIterableAdapter.java:51-53 | `remove` succeeds exactly when the wrapped remove does, and fails with the same error. After it, the wrapped iterator is the one the wrapped remove produced. |
| ConversionIterable.RemoveShared | src/main/java/org/springframework/data/hadoop/util/ConversionServiceIterableAdapter.java:40-53 | `remove` as seen from the adapter, which shares its collection with its iterators. It succeeds and fails exactly as the iterator's `remove` does. On success the adapter holds the iterator's reduced collection, one value shorter, and the iterator stays an iterator over it. |
| ConversionIterable.LaterIteratorSeesRemoval | src/main/java/org/springframework/data/hadoop/util/ConversionServiceIterableAdapter.java:37-53 | After `next` and `remove` through one iterator, an iterator the adapter hands out later yields the conversions of all values except the removed one, in order. |
| ConversionIterable.RemainingIsConvertedSuffix | src/main/java/org/springframework/data/hadoop/util/ConversionServiceIterableAdapter.java:42-49 | Calling `next` until it fails yields the conversions of the values from the cursor on, in order, with nothing filtered or skipped. |
| ConversionIterable.FullIteration | src/main/java/org/springframework/data/hadoop/util/ConversionServiceIterableAdapter.java:37-49 | A full iteration of a fresh iterator yields `MapConvert` of all values. It has exactly as many elements as there are values. |
| ConversionIterable.RemoveAfterNext | src/main/java/org/springframework/data/hadoop/util/ConversionServiceIterableAdapter.java:46-53 | `remove` right after `next` deletes exactly the source value that `next` converted. It does not change what the iterator yields from then on. |
| ConversionIterable.RemoveTwiceFails | src/main/java/org/springframework/data/hadoop/util/ConversionServiceIterableAdapter.java:51-53 | A second `remove` with no `next` in between fails with IllegalState. |
| ConversionIterable.Drain | src/main/java/org/springframework/data/hadoop/util/ConversionServiceIterableAdapter.java:37-49 | A loop of `hasNext`/`next` over a fresh iterator collects one converted element per source value, in source order. |

## Left out
- `BeanFactoryConversionService` is a wrapper over Spring's conversion service and JavaBeans property editors. Its behaviour lives in library code outside this model. The adapter treats conversion as an uninterpreted total function, so a conversion that throws is not modelled.
- The `HadoopCluster` test interface has no logic of its own, only start/stop and file-system I/O.
- `ContainerCluster`, `AbstractContainerClusterAppmaster` and the projected grid's `removeProjection` are not part of this model. A cluster is a plain record of id and projection, and `removeProjection` is a recorded call.
- Typed header lookup: a header present with the wrong type, which makes `MessageHeaders.get` throw, is not modelled. Each entry is either absent or of the right type.
- A null `projectedGrid` field, and a registered cluster whose projection is null, are not modelled.
- The state machine that runs the action, its per-cluster serialization, and concurrent access to the registry are not modelled. The visible action is a single sequential run.
- Concurrent modification is not modelled. Suppose one iterator removes a value while a second iterator over the same collection is already in use. A fail-fast Java collection would make the second iterator throw. Here the second iterator keeps the collection as it was when it was created. Iterators created after the removal do see it (`LaterIteratorSeesRemoval`). Iterators that only read do not affect one another.
- Collections whose iterators check for a pending `next` before checking whether removal is supported are not modelled. `AbstractList`-based iterators, such as those of `Arrays.asList`, are of this kind. When both conditions fail, they raise IllegalState where the model raises UnsupportedOperation.
- ConversionIterable.Iterator: the wrapped `Iterable` is modelled as a finite collection whose `iterator()` starts a fresh traversal on every call. `Iterable` itself promises neither. Three kinds are not modelled: `Iterable`s whose iterator may be obtained only once, such as `java.nio.file.DirectoryStream`; `Iterable`s that hand out one shared iterator, which resumes where the last caller stopped; and infinite `Iterable`s. `FullIteration`, `Drain` and `LaterIteratorSeesRemoval` hold only for the modelled collections.
- A null wrapped `values` and a null conversion service are not modelled. In the code the first throws `NullPointerException` at line 40, and the second at line 48 on the first `next`.
- Laziness of conversion is not observable, because conversion is a pure function.

