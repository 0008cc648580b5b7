/** Short runs of the publisher from a fresh instance that pin down what the
    code does where its comments or a reader might expect otherwise. */
module Scenarios {
  import opened LinkedKeys
  import opened Markers
  import opened Publisher

  /** A fresh publisher after `x` was created with visual content and then
      erased: the cache is empty and the delete for `x` is pending. */
  method CreateThenErase() returns (p: MarkerPublisher, m: MarkerObject)
    ensures fresh(p) && fresh(m) && p.Valid()
    ensures p.markersCache == map[] && p.markers == map["x" := m] && p.pendingOrder == ["x"]
    ensures m.Message() == Msg("x", 0, Delete) && m.hasVisual
  {
    p := new MarkerPublisher();
    m := p.CreateMarker("x", true, false);
    assert p.markersCache == map["x" := m] && p.markers == map["x" := m];
    p.EraseMarker("x");
  }

  /** A marker erased and created again before the next publish is the same
      object as before, and the publish still sends its delete: the re-add
      does not cancel the pending remove message. */
  method ReAddBeforePublish() returns (e: Emission)
    ensures e.topic == MarkerTopic
    ensures e.batch == [Msg("x", 0, Delete)]
  {
    var p, m := CreateThenErase();
    var again := p.CreateMarker("x", true, false);
    assert again == m && p.markers == map["x" := m] && p.pendingOrder == ["x"];
    assert p.PendingBatch() == [m.Message()] by {
      assert p.pendingOrder[..0] == [];
    }
    e := p.PublishMarker(true);
  }

  /** A publish whose emission fails leaves the pending change in place, so
      the next publish sends it again. */
  method FailedPublishIsRepeated() returns (first: Emission, second: Emission)
    ensures first.batch == [Msg("x", 0, Add)]
    ensures second.batch == [Msg("x", 0, Add)]
  {
    var p := new MarkerPublisher();
    var m := p.CreateMarker("x", true, false);
    assert p.pendingOrder == ["x"];
    assert p.PendingBatch() == [m.Message()] by {
      assert p.pendingOrder[..0] == [];
    }
    first := p.PublishMarker(false);
    second := p.PublishMarker(true);
  }

  /** Unqueueing the only pending change leaves nothing to publish, while
      the marker stays cached and a republish still sends it. */
  method UnqueueThenPublish() returns (e: Emission, r: Emission)
    ensures e.batch == []
    ensures r.batch == [Msg("x", 0, Add)]
  {
    var p := new MarkerPublisher();
    var m := p.CreateMarker("x", true, false);
    p.UnqueueRepublish(m);
    e := p.PublishMarker(true);
    assert p.markersCache == map["x" := m];
    r := p.RepublishMarker();
    var order :| Lists(order, p.markersCache.Keys) && KeysIn(order, p.markersCache)
                 && r.batch == Emitted(order, p.markersCache);
    assert order == ["x"] by {
      assert p.markersCache.Keys == {"x"};
      assert order != [] && order[0] == "x";
      assert Lists(order[1..], p.markersCache.Keys - {"x"});
      assert p.markersCache.Keys - {"x"} == {};
      assert Lists(order[1..], {});
    }
    assert order[..0] == [];
  }

  /** Markers created one after another get the ids 0, 1, 2. */
  method IdsInCreationOrder() returns (a: int, b: int, c: int)
    ensures a == 0 && b == 1 && c == 2
  {
    var p := new MarkerPublisher();
    var ma := p.CreateMarker("a", true, false);
    var mb := p.CreateMarker("b", false, false);
    var mc := p.CreateMarker("c", true, true);
    a, b, c := ma.id, mb.id, mc.id;
  }
}
