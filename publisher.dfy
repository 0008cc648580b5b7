/** The marker registry and publish engine of the visualization marker
    node. Two maps from identifier to marker object: `markersCache`, every
    marker that currently exists, and `markers`, the changes not yet
    published, kept in insertion order like a LinkedHashMap. A process-wide
    counter hands out the numeric marker ids. Operations run one at a time;
    the node is taken to be connected. */
module Publisher {
  import opened LinkedKeys
  import opened Markers
  import opened JavaInt

  /** Topic of the steady-state marker stream. */
  const MarkerTopic: string := "/visualization_marker_array"
  /** Topic of the out-of-band highlight stream. */
  const HighlightTopic: string := "/marker_highlight"

  /** One marker array handed to a ROS publisher. */
  datatype Emission = Emission(topic: string, batch: seq<Msg>)

  /** Every key in `order` has an entry. */
  predicate KeysIn(order: seq<string>, entries: map<string, MarkerObject>)
  {
    forall i :: 0 <= i < |order| ==> order[i] in entries
  }

  /** The batch built from the entries under `order`: the message of every
      entry with visual content, in the order of `order`; entries without
      visual content contribute nothing. */
  function Emitted(order: seq<string>, entries: map<string, MarkerObject>): (r: seq<Msg>)
    requires KeysIn(order, entries)
    reads entries.Values`hasVisual, entries.Values`action
    ensures |r| <= |order|
  {
    if order == [] then []
    else
      var init := order[..|order| - 1];
      var last := entries[order[|order| - 1]];
      var r := Emitted(init, entries) + (if last.hasVisual then [last.Message()] else []);
      r
  }

  /** The batch of a concatenation is the concatenation of the batches. */
  lemma {:induction false} EmittedAppend(a: seq<string>, b: seq<string>, entries: map<string, MarkerObject>)
    requires KeysIn(a, entries) && KeysIn(b, entries)
    ensures Emitted(a + b, entries) == Emitted(a, entries) + Emitted(b, entries)
  {
    if b != [] {
      var b' := b[..|b| - 1];
      assert (a + b)[..|a + b| - 1] == a + b';
      assert (a + b)[|a + b| - 1] == b[|b| - 1];
      EmittedAppend(a, b', entries);
    } else {
      assert a + b == a;
    }
  }

  /** Every message in the batch is the message of an entry under `order`
      with visual content. */
  lemma {:induction false} EmittedSound(order: seq<string>, entries: map<string, MarkerObject>, p: nat)
    requires KeysIn(order, entries) && p < |Emitted(order, entries)|
    ensures exists i :: 0 <= i < |order| && entries[order[i]].hasVisual
                        && entries[order[i]].Message() == Emitted(order, entries)[p]
  {
    var init := order[..|order| - 1];
    var last := order[|order| - 1];
    if p < |Emitted(init, entries)| {
      EmittedSound(init, entries, p);
      var i :| 0 <= i < |init| && entries[init[i]].hasVisual
               && entries[init[i]].Message() == Emitted(init, entries)[p];
      assert init[i] == order[i];
    } else {
      assert entries[order[|order| - 1]].hasVisual;
    }
  }

  /** Every entry under `order` with visual content has its message in the
      batch. */
  lemma EmittedComplete(order: seq<string>, entries: map<string, MarkerObject>, i: nat)
    requires KeysIn(order, entries)
    requires i < |order| && entries[order[i]].hasVisual
    ensures entries[order[i]].Message() in Emitted(order, entries)
  {
    var m := entries[order[i]];
    assert order == order[..i] + [order[i]] + order[i + 1..];
    EmittedAppend(order[..i] + [order[i]], order[i + 1..], entries);
    EmittedAppend(order[..i], [order[i]], entries);
    assert [order[i]][..0] == [];
    assert Emitted([order[i]], entries) == [m.Message()];
  }

  /** An element of `a` comes before an element of `b` in `a + b`. */
  lemma ConcatInOrder(a: seq<Msg>, b: seq<Msg>, x: Msg, y: Msg)
    requires x in a && y in b
    ensures exists p, q :: 0 <= p < q < |a + b| && (a + b)[p] == x && (a + b)[q] == y
  {
    var p :| 0 <= p < |a| && a[p] == x;
    var q :| 0 <= q < |b| && b[q] == y;
    assert (a + b)[p] == x && (a + b)[|a| + q] == y;
  }

  /** Two entries with visual content appear in the batch in the order of
      `order`. */
  lemma EmittedInOrder(order: seq<string>, entries: map<string, MarkerObject>, i: nat, j: nat)
    requires KeysIn(order, entries)
    requires i < j < |order|
    requires entries[order[i]].hasVisual && entries[order[j]].hasVisual
    ensures exists p, q :: 0 <= p < q < |Emitted(order, entries)|
                        && Emitted(order, entries)[p] == entries[order[i]].Message()
                        && Emitted(order, entries)[q] == entries[order[j]].Message()
  {
    var front, back := order[..j], order[j..];
    assert order == front + back;
    assert front[i] == order[i] && back[0] == order[j];
    EmittedAppend(front, back, entries);
    EmittedComplete(front, entries, i);
    EmittedComplete(back, entries, 0);
    ConcatInOrder(Emitted(front, entries), Emitted(back, entries),
                  entries[order[i]].Message(), entries[order[j]].Message());
  }

  /** Erase-all so far: `cache` is what is left of `cache0`, and every
      marker drained from it now sits in the pending map under its key. */
  ghost predicate Drained(cache0: map<string, MarkerObject>, pending0: map<string, MarkerObject>,
                          cache: map<string, MarkerObject>, pending: map<string, MarkerObject>)
  {
    && (forall k :: k in cache ==> k in cache0 && cache[k] == cache0[k])
    && pending == pending0 + (cache0 - cache.Keys)
  }

  /** Erase-all so far, with the actions of the drained markers. */
  ghost predicate Erasing(cache0: map<string, MarkerObject>, pending0: map<string, MarkerObject>,
                          order0: seq<string>, cache: map<string, MarkerObject>,
                          pending: map<string, MarkerObject>, order: seq<string>)
    reads cache0.Values
  {
    && Drained(cache0, pending0, cache, pending)
    && (forall k :: k in cache0 && k !in cache ==> cache0[k].action == Delete)
    && IsPrefix(order0, order)
  }

  /** Erasing one more cached key keeps `Drained`. */
  lemma DrainedStep(cache0: map<string, MarkerObject>, pending0: map<string, MarkerObject>,
                    cache: map<string, MarkerObject>, pending: map<string, MarkerObject>, k: string)
    requires Drained(cache0, pending0, cache, pending) && k in cache
    ensures Drained(cache0, pending0, cache - {k}, pending[k := cache[k]])
  {
    assert cache0 - (cache - {k}).Keys == (cache0 - cache.Keys)[k := cache[k]];
  }

  class MarkerPublisher {
    /** The changes to publish, with their insertion order. */
    var markers: map<string, MarkerObject>
    var pendingOrder: seq<string>
    /** All markers that currently exist. */
    var markersCache: map<string, MarkerObject>
    /** The next marker id (a static Java `int`). */
    var nextId: int
    /** How many ids have been handed out. */
    ghost var created: nat

    ghost predicate Valid()
      reads this
    {
      && Lists(pendingOrder, markers.Keys)
      && (forall k :: k in markers ==> markers[k].identifier == k)
      && (forall k :: k in markersCache ==> markersCache[k].identifier == k)
      && nextId == CounterAfter(created)
    }

    constructor ()
      ensures Valid()
      ensures markers == map[] && pendingOrder == [] && markersCache == map[]
      ensures nextId == 0 && created == 0
    {
      markers := map[];
      pendingOrder := [];
      markersCache := map[];
      nextId := 0;
      created := 0;
    }

    /** The batch a publish would emit now. */
    function PendingBatch(): seq<Msg>
      requires Valid()
      reads this, markers.Values`hasVisual, markers.Values`action
    {
      ListsIndexed(pendingOrder, markers.Keys);
      Emitted(pendingOrder, markers)
    }

    /** Looks `identifier` up in the cache only. */
    function GetMarker(identifier: string): (r: Option<MarkerObject>)
      reads this
      ensures r.Some? <==> identifier in markersCache
      ensures r.Some? ==> r.value == markersCache[identifier]
    {
      if identifier in markersCache then Some(markersCache[identifier]) else None
    }

    /** The marker cached under `identifier`, if any, as a set. */
    function CachedAt(identifier: string): set<MarkerObject>
      reads this
    {
      if identifier in markersCache then {markersCache[identifier]} else {}
    }

    /** Returns the cached marker; else takes a marker whose delete is still
        pending back into the cache (leaving the pending delete in place);
        else creates a marker with the next id, caches it and, when it has
        visual content, queues it. `visual` and `hidden` are the flags the
        new marker object computes for itself. */
    method CreateMarker(identifier: string, visual: bool, hidden: bool) returns (marker: MarkerObject)
      requires Valid()
      modifies this
      ensures Valid()
      ensures marker.identifier == identifier && GetMarker(identifier) == Some(marker)
      ensures identifier in old(markersCache) ==>
                && marker == old(markersCache[identifier])
                && markersCache == old(markersCache)
                && markers == old(markers) && pendingOrder == old(pendingOrder)
                && nextId == old(nextId) && created == old(created)
      ensures identifier !in old(markersCache) && identifier in old(markers) ==>
                && marker == old(markers[identifier])
                && marker.action == old(marker.action)
                && markersCache == old(markersCache)[identifier := marker]
                && markers == old(markers) && pendingOrder == old(pendingOrder)
                && nextId == old(nextId) && created == old(created)
      ensures identifier !in old(markersCache) && identifier !in old(markers) ==>
                && fresh(marker)
                && marker.ns == identifier && marker.id == old(nextId) && marker.action == Add
                && marker.hasVisual == visual && marker.hidden == hidden && !marker.isPublished
                && nextId == Inc(old(nextId)) && created == old(created) + 1
                && markersCache == old(markersCache)[identifier := marker]
                && (visual ==> markers == old(markers)[identifier := marker]
                               && pendingOrder == old(pendingOrder) + [identifier])
                && (!visual ==> markers == old(markers) && pendingOrder == old(pendingOrder))
    {
      var cached := GetMarker(identifier);
      if cached.Some? {
        return cached.value;
      }
      if identifier in markers {
        marker := markers[identifier];
        markersCache := markersCache[identifier := marker];
        return;
      }
      marker := new MarkerObject(identifier, identifier, nextId, visual, hidden);
      nextId := Inc(nextId);
      created := created + 1;
      if marker.hasVisual {
        ListsHas(pendingOrder, markers.Keys, identifier);
        ListsPut(pendingOrder, markers.Keys, identifier);
        assert markers[identifier := marker].Keys == markers.Keys + {identifier};
        markers := markers[identifier := marker];
        pendingOrder := Put(pendingOrder, identifier);
      }
      markersCache := markersCache[identifier := marker];
    }

    /** Removes `identifier` from the cache; if it was there, marks the
        marker for deletion and queues it, replacing any pending entry. */
    method EraseMarker(identifier: string)
      requires Valid()
      modifies this`markersCache, this`markers, this`pendingOrder, CachedAt(identifier)`action
      ensures Valid()
      ensures GetMarker(identifier) == None
      ensures identifier !in old(markersCache) ==>
                && markersCache == old(markersCache)
                && markers == old(markers) && pendingOrder == old(pendingOrder)
      ensures identifier in old(markersCache) ==>
                && old(markersCache[identifier]).action == Delete
                && markersCache == old(markersCache) - {identifier}
                && markers == old(markers)[identifier := old(markersCache[identifier])]
                && pendingOrder == Put(old(pendingOrder), identifier)
    {
      if identifier in markersCache {
        var m := markersCache[identifier];
        markersCache := markersCache - {identifier};
        m.action := Delete;
        ListsPut(pendingOrder, markers.Keys, identifier);
        assert markers[identifier := m].Keys == markers.Keys + {identifier};
        markers := markers[identifier := m];
        pendingOrder := Put(pendingOrder, identifier);
      }
    }

    /** Erases whatever is cached under the marker's identifier. */
    method EraseMarkerObject(marker: MarkerObject)
      requires Valid()
      modifies this`markersCache, this`markers, this`pendingOrder, CachedAt(marker.identifier)`action
      ensures Valid()
      ensures GetMarker(marker.identifier) == None
      ensures markersCache == old(markersCache) - {marker.identifier}
      ensures marker.identifier !in old(markersCache) ==>
                markers == old(markers) && pendingOrder == old(pendingOrder)
      ensures marker.identifier in old(markersCache) ==>
                && old(markersCache[marker.identifier]).action == Delete
                && markers == old(markers)[marker.identifier := old(markersCache[marker.identifier])]
                && pendingOrder == Put(old(pendingOrder), marker.identifier)
    {
      EraseMarker(marker.identifier);
    }

    /** Erases cached markers one at a time, in no particular order, until
        the cache is empty. */
    method EraseAllMarker()
      requires Valid()
      modifies this`markersCache, this`markers, this`pendingOrder, markersCache.Values`action
      ensures Valid()
      ensures markersCache == map[]
      ensures markers == old(markers) + old(markersCache)
      ensures forall k :: k in old(markersCache) ==> old(markersCache[k]).action == Delete
      ensures forall k :: k in old(markers) && k !in old(markersCache) ==>
                markers[k].action == old(markers[k].action)
      ensures IsPrefix(old(pendingOrder), pendingOrder)
    {
      ghost var cache0, pending0, order0 := markersCache, markers, pendingOrder;
      while markersCache != map[]
        invariant Valid()
        invariant Erasing(cache0, pending0, order0, markersCache, markers, pendingOrder)
        decreases markersCache.Keys
      {
        var k :| k in markersCache;
        EraseStep(cache0, pending0, order0, k);
      }
      assert cache0 - {} == cache0;
      assert markers == pending0 + cache0;
      forall k | k in pending0 && k !in cache0
        ensures pending0[k] !in cache0.Values
      {
        assert pending0[k].identifier == k;
      }
    }

    /** One turn of the erase-all loop: erases cached key `k` and keeps
        the loop's record of what has been drained so far. */
    method EraseStep(ghost cache0: map<string, MarkerObject>, ghost pending0: map<string, MarkerObject>,
                     ghost order0: seq<string>, k: string)
      requires Valid() && k in markersCache
      requires Erasing(cache0, pending0, order0, markersCache, markers, pendingOrder)
      modifies this`markersCache, this`markers, this`pendingOrder, CachedAt(k)`action
      ensures Valid()
      ensures Erasing(cache0, pending0, order0, markersCache, markers, pendingOrder)
      ensures markersCache == old(markersCache) - {k}
    {
      ghost var cache, pending, order := markersCache, markers, pendingOrder;
      EraseMarker(k);
      DrainedStep(cache0, pending0, cache, pending, k);
      PutExtends(order0, order, k);
    }

    /** Builds one batch from the pending markers with visual content, in
        insertion order, setting each included marker's `isPublished` to
        whether its action is not a delete; then hands the batch to the
        ROS publisher. Only when that succeeds (`delivered`) is the pending
        map cleared, dropping the entries without visual content too. */
    method PublishMarker(delivered: bool) returns (e: Emission)
      requires Valid()
      modifies this`markers, this`pendingOrder, markers.Values`isPublished
      ensures Valid()
      ensures e.topic == MarkerTopic && e.batch == old(PendingBatch())
      ensures forall k :: k in old(markers) ==>
                old(markers[k]).isPublished ==
                  if old(markers[k].hasVisual) then old(markers[k].action) != Delete
                  else old(markers[k].isPublished)
      ensures markersCache == old(markersCache)
      ensures delivered ==> markers == map[] && pendingOrder == []
      ensures !delivered ==> markers == old(markers) && pendingOrder == old(pendingOrder)
    {
      var batch := BuildBatch();
      e := Emission(MarkerTopic, batch);
      if delivered {
        markers := map[];
        pendingOrder := [];
      }
    }

    /** The loop of a publish: collects the pending messages with visual
        content in insertion order and sets each included marker's
        `isPublished`. */
    method BuildBatch() returns (batch: seq<Msg>)
      requires Valid()
      modifies markers.Values`isPublished
      ensures batch == old(PendingBatch())
      ensures forall k :: k in markers ==>
                markers[k].isPublished ==
                  if markers[k].hasVisual then markers[k].action != Delete
                  else old(markers[k].isPublished)
    {
      ListsIndexed(pendingOrder, markers.Keys);
      var order, entries := pendingOrder, markers;
      batch := [];
      var i := 0;
      while i < |order|
        invariant 0 <= i <= |order|
        invariant batch == old(Emitted(order[..i], entries))
        invariant forall k :: k in entries ==>
                    entries[k].isPublished ==
                      if k !in order[..i] then old(entries[k].isPublished)
                      else if entries[k].hasVisual then entries[k].action != Delete
                      else old(entries[k].isPublished)
      {
        var m := entries[order[i]];
        assert order[..i + 1] == order[..i] + [order[i]];
        if m.hasVisual {
          batch := batch + [m.Message()];
          m.isPublished := m.action != Delete;
        }
        i := i + 1;
      }
      assert order[..i] == order;
      ListsContents(order, entries.Keys);
    }

    /** Emits a one-marker batch on the highlight topic; neither map and
        no marker field changes. */
    method HighlightMarker(marker: MarkerObject) returns (e: Emission)
      ensures e.topic == HighlightTopic && e.batch == [marker.Message()]
    {
      e := Emission(HighlightTopic, [marker.Message()]);
    }

    /** Emits every cached marker with visual content, visiting the cache
        in an unspecified order; neither map and no marker field changes. */
    method RepublishMarker() returns (e: Emission)
      requires Valid()
      ensures e.topic == MarkerTopic
      ensures exists order :: Lists(order, markersCache.Keys)
                             && KeysIn(order, markersCache)
                             && e.batch == Emitted(order, markersCache)
    {
      var batch := [];
      ghost var visited := [];
      var rest := markersCache.Keys;
      while rest != {}
        invariant rest <= markersCache.Keys
        invariant Lists(visited, markersCache.Keys - rest)
        invariant KeysIn(visited, markersCache)
        invariant batch == Emitted(visited, markersCache)
        decreases rest
      {
        var k :| k in rest;
        var m := markersCache[k];
        if m.hasVisual {
          batch := batch + [m.Message()];
        }
        assert (visited + [k])[..|visited|] == visited;
        ListsHas(visited, markersCache.Keys - rest, k);
        ListsPut(visited, markersCache.Keys - rest, k);
        assert markersCache.Keys - rest + {k} == markersCache.Keys - (rest - {k});
        visited := visited + [k];
        rest := rest - {k};
      }
      e := Emission(MarkerTopic, batch);
      assert markersCache.Keys - {} == markersCache.Keys;
    }

    /** Queues the marker under its identifier when it has visual content
        and is not hidden; otherwise does nothing. */
    method QueueRepublish(marker: MarkerObject)
      requires Valid()
      modifies this`markers, this`pendingOrder
      ensures Valid()
      ensures marker.hasVisual && !marker.hidden ==>
                markers == old(markers)[marker.identifier := marker]
                && pendingOrder == Put(old(pendingOrder), marker.identifier)
      ensures !(marker.hasVisual && !marker.hidden) ==>
                markers == old(markers) && pendingOrder == old(pendingOrder)
      ensures markersCache == old(markersCache)
    {
      if marker.hasVisual && !marker.hidden {
        ListsPut(pendingOrder, markers.Keys, marker.identifier);
        assert markers[marker.identifier := marker].Keys == markers.Keys + {marker.identifier};
        markers := markers[marker.identifier := marker];
        pendingOrder := Put(pendingOrder, marker.identifier);
      }
    }

    /** Drops any pending entry under the marker's identifier. */
    method UnqueueRepublish(marker: MarkerObject)
      requires Valid()
      modifies this`markers, this`pendingOrder
      ensures Valid()
      ensures markers == old(markers) - {marker.identifier}
      ensures pendingOrder == Remove(old(pendingOrder), marker.identifier)
      ensures markersCache == old(markersCache)
    {
      ListsRemove(pendingOrder, markers.Keys, marker.identifier);
      assert (markers - {marker.identifier}).Keys == markers.Keys - {marker.identifier};
      markers := markers - {marker.identifier};
      pendingOrder := Remove(pendingOrder, marker.identifier);
    }
  }
}
