# Marker registry and publish engine of the KnowRob visualization node

This project is a Dafny model of `MarkerPublisher`, the ROS node behind KnowRob's marker
visualization. The publisher keeps two maps from a marker identifier to a marker object:

- `markersCache` holds every marker that currently exists;
- `markers` holds the changes not yet published. It is a `LinkedHashMap`, so it remembers
  insertion order.

A static `int` counter hands out numeric marker ids. The operations modelled are:

- create, look up and erase one marker; erase all markers;
- publish the pending changes as one marker array;
- republish the whole cache; highlight one marker;
- queue and unqueue a marker for the next publish.

Each operation is an atomic step on one publisher instance. The node is taken to be connected.

Modules:

- `LinkedKeys` (`linked_keys.dfy`): the key order of an insertion-ordered map.
  - `Put` keeps a present key in place and appends a new one.
  - `Remove` drops a key.
  - `Lists(order, keys)` says that `order` lists the key set exactly once. It ties the order to the
    map's keys.
- `JavaInt` (`java_int.dfy`): the 32-bit `id++` counter, including wrap-around at the largest `int`.
- `Markers` (`markers.dfy`): the marker object. The model keeps only the part of its message the
  publisher decides on: namespace, id and action. `hasVisual` and `hidden` are flags the object
  computes itself; here they are inputs.
- `Publisher` (`publisher.dfy`): the class `MarkerPublisher`.
  - Its invariant: the pending order lists exactly the pending keys; every entry is stored under
    its own identifier; the id counter equals the value after `created` increments.
  - The specification function `Emitted(order, entries)` is the batch a publish builds: the
    messages of the entries with visual content, in `order`. Lemmas state that it is sound,
    complete and order-preserving.
- `Scenarios` (`scenarios.dfy`): short runs from a fresh publisher.

Where the code and its comments differ, the model follows the code:

- **Re-create with a delete pending** (`MarkerPublisher.java:87-93`):
  - the comment there says the pending remove message is ignored;
  - the code only puts the object back into the cache;
  - the pending entry stays, and so does its `DELETE` action;
  - so the next publish still deletes the marker. `Scenarios.ReAddBeforePublish` shows this.
- **Failed emission** (`MarkerPublisher.java:157-158`):
  - `markers.clear()` runs only after `pub.publish(arr)` returns, so a failed emission leaves the
    pending map intact;
  - the `isPublished` flags set in the loop stay set;
  - `Scenarios.FailedPublishIsRepeated` shows the batch being sent again.

## Model

| member | source | states |
|---|---|---|
| LinkedKeys.Put | knowrob_vis/knowrob_vis/src/main/java/org/knowrob/vis/MarkerPublisher.java:66 | a put into the insertion-ordered map never moves a key already there and adds at most one key |
| LinkedKeys.PutExtends | knowrob_vis/knowrob_vis/src/main/java/org/knowrob/vis/MarkerPublisher.java:66 | any run of puts keeps every earlier key order as a prefix |
| LinkedKeys.ListsPut | knowrob_vis/knowrob_vis/src/main/java/org/knowrob/vis/MarkerPublisher.java:66 | after a put, the key order lists the old key set plus the new key |
| LinkedKeys.ListsAppend | knowrob_vis/knowrob_vis/src/main/java/org/knowrob/vis/MarkerPublisher.java:66 | putting a new key appends it and the order lists the enlarged key set |
| LinkedKeys.Remove | knowrob_vis/knowrob_vis/src/main/java/org/knowrob/vis/MarkerPublisher.java:206 | a remove keeps the order free of duplicates and leaves exactly the other keys |
| LinkedKeys.ListsRemove | knowrob_vis/knowrob_vis/src/main/java/org/knowrob/vis/MarkerPublisher.java:206 | after a remove, the key order lists the old key set without that key |
| LinkedKeys.RemoveAbsent | knowrob_vis/knowrob_vis/src/main/java/org/knowrob/vis/MarkerPublisher.java:206 | removing a key that is not pending changes nothing |
| LinkedKeys.RemoveAfterPut | knowrob_vis/knowrob_vis/src/main/java/org/knowrob/vis/MarkerPublisher.java:199-206 | removing a key that was just queued as new restores the previous order |
| LinkedKeys.RemoveKeepsOrder | knowrob_vis/knowrob_vis/src/main/java/org/knowrob/vis/MarkerPublisher.java:206 | a remove keeps the relative order of every other pair of keys |
| LinkedKeys.ListsHas | knowrob_vis/knowrob_vis/src/main/java/org/knowrob/vis/MarkerPublisher.java:47 | a key is in the pending order exactly when it has a pending entry |
| LinkedKeys.ListsContents | knowrob_vis/knowrob_vis/src/main/java/org/knowrob/vis/MarkerPublisher.java:47 | the pending order and the pending map hold the same keys |
| LinkedKeys.ListsIndexed | knowrob_vis/knowrob_vis/src/main/java/org/knowrob/vis/MarkerPublisher.java:47 | every position of the pending order names a pending entry |
| LinkedKeys.ListsDistinct | knowrob_vis/knowrob_vis/src/main/java/org/knowrob/vis/MarkerPublisher.java:47 | the pending order never holds a key twice |
| JavaInt.Inc | knowrob_vis/knowrob_vis/src/main/java/org/knowrob/vis/MarkerPublisher.java:99 | `id++` stays in the int range: it adds one, or wraps from the largest int to the smallest |
| JavaInt.CounterAfter | knowrob_vis/knowrob_vis/src/main/java/org/knowrob/vis/MarkerPublisher.java:56 | the counter is a 32-bit int after any number of increments |
| JavaInt.CounterOffset | knowrob_vis/knowrob_vis/src/main/java/org/knowrob/vis/MarkerPublisher.java:56-99 | after n increments the counter differs from n by a whole number of wraps of 2^32 |
| JavaInt.CounterBeforeWrap | knowrob_vis/knowrob_vis/src/main/java/org/knowrob/vis/MarkerPublisher.java:99 | until the counter first wraps, the n-th id handed out is n |
| JavaInt.CounterDistinct | knowrob_vis/knowrob_vis/src/main/java/org/knowrob/vis/MarkerPublisher.java:99 | the first 2^32 ids are pairwise distinct, and the first 2^31 strictly increase |
| Markers.MarkerObject.constructor | knowrob_vis/knowrob_vis/src/main/java/org/knowrob/vis/MarkerPublisher.java:98-103 | a new marker carries its namespace, id and flags, with action ADD and not yet published |
| Publisher.Emitted | knowrob_vis/knowrob_vis/src/main/java/org/knowrob/vis/MarkerPublisher.java:150-156 | a batch holds at most one message per pending key |
| Publisher.EmittedAppend | knowrob_vis/knowrob_vis/src/main/java/org/knowrob/vis/MarkerPublisher.java:150-156 | the batch of two runs of keys is the batch of the first followed by the batch of the second |
| Publisher.EmittedSound | knowrob_vis/knowrob_vis/src/main/java/org/knowrob/vis/MarkerPublisher.java:150-152 | every message in the batch belongs to a listed entry with visual content |
| Publisher.EmittedComplete | knowrob_vis/knowrob_vis/src/main/java/org/knowrob/vis/MarkerPublisher.java:150-152 | every listed entry with visual content has its message in the batch |
| Publisher.EmittedInOrder | knowrob_vis/knowrob_vis/src/main/java/org/knowrob/vis/MarkerPublisher.java:150-152 | two entries with visual content appear in the batch in the order of their keys |
| Publisher.ConcatInOrder | knowrob_vis/knowrob_vis/src/main/java/org/knowrob/vis/MarkerPublisher.java:150-152 | a message from the earlier part of a batch precedes one from the later part |
| Publisher.DrainedStep | knowrob_vis/knowrob_vis/src/main/java/org/knowrob/vis/MarkerPublisher.java:139-140 | each erase in the erase-all loop moves one more cached marker into the pending map under its key |
| Publisher.MarkerPublisher.constructor | knowrob_vis/knowrob_vis/src/main/java/org/knowrob/vis/MarkerPublisher.java:65-68 | a new publisher has both maps empty and the counter at 0 |
| Publisher.MarkerPublisher.GetMarker | knowrob_vis/knowrob_vis/src/main/java/org/knowrob/vis/MarkerPublisher.java:116-118 | a lookup finds a marker exactly when its identifier is cached, and finds the cached object; pending entries are not consulted |
| Publisher.MarkerPublisher.CreateMarker | knowrob_vis/knowrob_vis/src/main/java/org/knowrob/vis/MarkerPublisher.java:83-114 | a cached identifier returns the cached object and changes nothing. An identifier pending but not cached returns the pending object, caches it, and leaves pending, its action and the counter alone. A new identifier gets a fresh ADD marker with namespace = identifier and id = the old counter; the counter advances by one `id++`; the marker is cached, and appended to pending exactly when it has visual content |
| Publisher.MarkerPublisher.EraseMarker | knowrob_vis/knowrob_vis/src/main/java/org/knowrob/vis/MarkerPublisher.java:120-131 | an identifier that is not cached changes nothing. A cached one leaves the cache, its object's action becomes DELETE, and pending maps the identifier to that object, replacing any earlier entry and keeping its position |
| Publisher.MarkerPublisher.EraseMarkerObject | knowrob_vis/knowrob_vis/src/main/java/org/knowrob/vis/MarkerPublisher.java:133-135 | erasing by object is erasing by the object's identifier |
| Publisher.MarkerPublisher.EraseAllMarker | knowrob_vis/knowrob_vis/src/main/java/org/knowrob/vis/MarkerPublisher.java:137-142 | the cache ends empty. Every previously cached marker is pending under its identifier with action DELETE. Pending entries for identifiers that were not cached keep their object and action. Keys already pending keep their order |
| Publisher.MarkerPublisher.EraseStep | knowrob_vis/knowrob_vis/src/main/java/org/knowrob/vis/MarkerPublisher.java:139-140 | one turn of the erase-all loop removes one cached key and keeps the loop's record of what was drained |
| Publisher.MarkerPublisher.PublishMarker | knowrob_vis/knowrob_vis/src/main/java/org/knowrob/vis/MarkerPublisher.java:144-164 | the emitted batch is exactly the pending messages with visual content, in insertion order. Each included marker's `isPublished` becomes whether its action is not DELETE; other flags keep their value. The cache is unchanged. On delivery pending is cleared, including the entries without visual content; on failure pending is kept |
| Publisher.MarkerPublisher.BuildBatch | knowrob_vis/knowrob_vis/src/main/java/org/knowrob/vis/MarkerPublisher.java:148-156 | the publish loop yields the batch of the pending map and sets `isPublished` on exactly the included markers |
| Publisher.MarkerPublisher.HighlightMarker | knowrob_vis/knowrob_vis/src/main/java/org/knowrob/vis/MarkerPublisher.java:166-177 | a highlight sends the one marker's message on the highlight topic and changes no state |
| Publisher.MarkerPublisher.RepublishMarker | knowrob_vis/knowrob_vis/src/main/java/org/knowrob/vis/MarkerPublisher.java:179-194 | a republish sends the messages of exactly the cached markers with visual content, each once, in some enumeration order of the cache. It changes no state |
| Publisher.MarkerPublisher.QueueRepublish | knowrob_vis/knowrob_vis/src/main/java/org/knowrob/vis/MarkerPublisher.java:196-202 | a marker with visual content that is not hidden is put into pending under its identifier; otherwise nothing changes; the cache is never touched |
| Publisher.MarkerPublisher.UnqueueRepublish | knowrob_vis/knowrob_vis/src/main/java/org/knowrob/vis/MarkerPublisher.java:204-208 | the marker's identifier leaves pending unconditionally, the other keys keep their order, and the cache is untouched |
| Scenarios.CreateThenErase | knowrob_vis/knowrob_vis/src/main/java/org/knowrob/vis/MarkerPublisher.java:120-131 | creating and then erasing a visual marker leaves the cache empty and a pending DELETE for it |
| Scenarios.ReAddBeforePublish | knowrob_vis/knowrob_vis/src/main/java/org/knowrob/vis/MarkerPublisher.java:87-93 | erasing and re-creating a marker before a publish still publishes its DELETE |
| Scenarios.FailedPublishIsRepeated | knowrob_vis/knowrob_vis/src/main/java/org/knowrob/vis/MarkerPublisher.java:157-158 | a failed emission leaves the batch pending, so the next publish sends it again |
| Scenarios.UnqueueThenPublish | knowrob_vis/knowrob_vis/src/main/java/org/knowrob/vis/MarkerPublisher.java:185-206 | an unqueued marker is missing from the next publish but still sent by a republish |
| Scenarios.IdsInCreationOrder | knowrob_vis/knowrob_vis/src/main/java/org/knowrob/vis/MarkerPublisher.java:99 | markers created one after another get ids 0, 1, 2, whether or not they have visual content |

## Left out

- `waitForNode` and `getNode` (lines 210-222): these are a blocking poll for the ROS connection. The model assumes the node is connected.
- `onStart`, `getDefaultNodeName`, `runNode` and the lazy singleton `get()` (lines 60-81, 224-230): ROS set-up and process start. The model is one publisher instance, and the static `id` counter is a field of it.
- Message construction (lines 95-101): the message factory, frame id, time stamp and lifetime come from ROS objects not shown. A message keeps only namespace, id and action.
- `synchronized` blocks and the `ConcurrentHashMap` (lines 67, 105-111, 138, 148, 184, 198, 205): every operation is one atomic step. Thread interleavings are not modelled.
- Logging in the `catch` blocks (lines 128-129, 161-162, 174-175, 191-192): an exception from the publish call is modelled by the `delivered` flag of `PublishMarker`. The highlight and republish emissions return the batch they would send, whatever its delivery. The map removal in `eraseMarker` cannot fail in the model.
- `MarkerObject` is not part of this model beyond the fields the publisher reads or writes. `Markers.MarkerObject` stands in for it, and its visual and hidden flags are inputs to `CreateMarker`.
- Publisher.MarkerPublisher.RepublishMarker: the order in which a `ConcurrentHashMap` yields its values is not fixed. The contract states only that the batch follows some listing of the cache in which each key appears once.
- Publisher.MarkerPublisher.EraseAllMarker: the key an iterator of the `ConcurrentHashMap` returns first is not fixed. The contract states only that keys already pending keep their order, not the order in which the erased keys are appended.
