/** Clients of the two stores, driven the way "record checkpoint" requests
    drive them: two checkpoints for one unit, "started" then "done". What they
    promise follows from the stores' contracts and the definitions of the
    value functions. */
module TrackingScenario {
  import opened CheckpointLog
  import opened UnitRegistry

  /** The log holds both checkpoints, in call order, and the unit's history
      is the whole log. */
  method TwoCheckpointsLogged(t0: string, t1: string)
    returns (log: seq<Checkpoint>, history: seq<Checkpoint>)
    ensures |log| == 2
    ensures log[0].status == "started" && log[1].status == "done"
    ensures log[0].unitId == "unit-1" && log[1].unitId == "unit-1"
    ensures history == log
  {
    var manager := new CheckpointManager();
    assert manager.GetHistory("unit-1") == [];
    log := manager.CreateCheckpoint("c0", "unit-1", "started", t0);
    ghost var log0, history0 := log, manager.GetHistory("unit-1");
    assert history0 == log0;
    log := manager.CreateCheckpoint("c1", "unit-1", "done", t1);
    history := manager.GetHistory("unit-1");
  }

  /** The registry's value after the two updates: one unit, status "done",
      both entries in its trail. */
  lemma TwoStatusesValue(d0: string, d1: string)
    ensures Updated(Updated([], "unit-1", "started", d0), "unit-1", "done", d1)
            == [UnitRecord("unit-1", "done", [StatusEntry("started", d0), StatusEntry("done", d1)])]
  {
    var first := UnitRecord("unit-1", "started", [StatusEntry("started", d0)]);
    assert IdsOf([]) == [];
    assert Updated([], "unit-1", "started", d0) == [] + [first];
    assert IdsOf([first]) == ["unit-1"];
    assert IndexOfId(["unit-1"], "unit-1") == Some(0);
    assert first.checkpoints + [StatusEntry("done", d1)]
        == [StatusEntry("started", d0), StatusEntry("done", d1)];
  }

  /** The registry holds one unit with status "done" and a two-entry trail;
      selecting by status sees only the current status. */
  method TwoStatusesRegistered(d0: string, d1: string)
    returns (done: seq<Unit>, started: seq<Unit>, trail: nat)
    ensures |done| == 1 && done[0].id == "unit-1"
    ensures started == []
    ensures trail == 2
  {
    var service := new UnitStatusService();
    assert Ids(service.units) == [] && service.View() == [];
    var u := service.UpdateUnitStatus("unit-1", "started", d0);
    assert service.units == [u];
    var v := service.UpdateUnitStatus("unit-1", "done", d1);
    assert v == u && service.units == [u];
    TwoStatusesValue(d0, d1);
    assert u.Record() == service.View()[0];
    done := service.GetUnitsByStatus("done");
    started := service.GetUnitsByStatus("started");
    trail := |u.checkpoints|;
  }
}
