/** The unit registry: the current status of every unit, with a per-unit trail
    of the statuses it was given. A unit is created the first time a status is
    given for its id. */
module UnitRegistry {

  datatype Option<T> = None | Some(value: T)

  /** One entry of a unit's trail: the status given and the rendered time. */
  datatype StatusEntry = StatusEntry(status: string, date: string)

  /** The value of one unit at a moment: what the registry exposes of it. */
  datatype UnitRecord = UnitRecord(id: string, status: string, checkpoints: seq<StatusEntry>)

  /** One call of the status update, with the time it would render. */
  datatype Update = Update(unitId: string, status: string, date: string)

  ghost predicate Unique(ids: seq<string>)
  {
    forall i, j :: 0 <= i < j < |ids| ==> ids[i] != ids[j]
  }

  /** The position of the first occurrence of `id`, if any: what a search
      that stops at the first match finds. */
  function IndexOfId(ids: seq<string>, id: string): (r: Option<nat>)
    ensures r.Some? ==> r.value < |ids| && ids[r.value] == id
    ensures r.Some? ==> forall j :: 0 <= j < r.value ==> ids[j] != id
    ensures r.None? <==> id !in ids
  {
    if ids == [] then None
    else if ids[0] == id then Some(0)
    else match IndexOfId(ids[1..], id)
      case None => None
      case Some(k) =>
        Some(k + 1)
  }

  /** The ids of the registry's units, in registry order. */
  function IdsOf(view: seq<UnitRecord>): seq<string>
  {
    seq(|view|, i requires 0 <= i < |view| => view[i].id)
  }

  /** The record of the unit with `id`, if the registry holds one. */
  function Lookup(view: seq<UnitRecord>, id: string): (r: Option<UnitRecord>)
    ensures r.None? <==> id !in IdsOf(view)
    ensures r.Some? ==> r.value.id == id && r.value in view
  {
    match IndexOfId(IdsOf(view), id)
    case None => None
    case Some(k) => Some(view[k])
  }

  /** The trail of the unit with `id`; empty when there is no such unit. */
  function Trail(view: seq<UnitRecord>, id: string): seq<StatusEntry>
  {
    match Lookup(view, id)
    case None => []
    case Some(u) => u.checkpoints
  }

  /** The search finds the same position in a list that only grew at its end
      by an id other than the one sought. */
  lemma {:induction false} IndexOfIdAppend(ids: seq<string>, x: string, id: string)
    requires x != id
    ensures IndexOfId(ids + [x], id) == IndexOfId(ids, id)
  {
    if ids == [] {
      assert [x][1..] == [];
    } else if ids[0] != id {
      assert (ids + [x])[1..] == ids[1..] + [x];
      IndexOfIdAppend(ids[1..], x, id);
    }
  }

  /** The effect of one status update on the registry's value: the unit with
      `id` is created at the end if the search finds none; then its status is
      overwritten and its trail grows by one entry. */
  function Updated(view: seq<UnitRecord>, id: string, status: string, date: string): (r: seq<UnitRecord>)
    ensures |r| == if id in IdsOf(view) then |view| else |view| + 1
  {
    match IndexOfId(IdsOf(view), id)
    case None => view + [UnitRecord(id, status, [StatusEntry(status, date)])]
    case Some(k) => view[k := UnitRecord(id, status, view[k].checkpoints + [StatusEntry(status, date)])]
  }

  /** An update keeps the id list when the id is registered, and appends the
      id otherwise. */
  lemma UpdatedIds(view: seq<UnitRecord>, id: string, status: string, date: string)
    ensures IdsOf(Updated(view, id, status, date)) ==
            if id in IdsOf(view) then IdsOf(view) else IdsOf(view) + [id]
  {
  }

  /** An update keeps unit ids unique: it appends a unit only when the search
      found none with that id. */
  lemma UpdatedKeepsUnique(view: seq<UnitRecord>, id: string, status: string, date: string)
    requires Unique(IdsOf(view))
    ensures Unique(IdsOf(Updated(view, id, status, date)))
  {
    UpdatedIds(view, id, status, date);
  }

  /** After an update the unit with `id` has the new status and its old trail
      (empty for a new unit) followed by one entry. */
  lemma UpdatedLookup(view: seq<UnitRecord>, id: string, status: string, date: string)
    ensures Lookup(Updated(view, id, status, date), id) ==
            Some(UnitRecord(id, status, Trail(view, id) + [StatusEntry(status, date)]))
  {
    var r := Updated(view, id, status, date);
    UpdatedIds(view, id, status, date);
    match IndexOfId(IdsOf(view), id)
    case None =>
      assert Lookup(r, id) == Some(r[|view|]);
      assert Trail(view, id) + [StatusEntry(status, date)] == [StatusEntry(status, date)];
    case Some(k) =>
      assert Lookup(view, id) == Some(view[k]);
      assert Lookup(r, id) == Some(r[k]);
  }

  /** An update leaves the record of every other id as it was. */
  lemma UpdatedLookupOther(view: seq<UnitRecord>, id: string, status: string, date: string, other: string)
    requires other != id
    ensures Lookup(Updated(view, id, status, date), other) == Lookup(view, other)
  {
    UpdatedIds(view, id, status, date);
    if id !in IdsOf(view) {
      IndexOfIdAppend(IdsOf(view), id, other);
    }
  }

  /** An update changes no position that holds another unit, and never
      shortens the registry. */
  lemma UpdatedKeepsOthers(view: seq<UnitRecord>, id: string, status: string, date: string)
    ensures |Updated(view, id, status, date)| >= |view|
    ensures forall j :: 0 <= j < |view| && view[j].id != id ==> Updated(view, id, status, date)[j] == view[j]
  {
  }

  /** The registry's value after a run of updates, oldest first. */
  function ApplyAll(view: seq<UnitRecord>, ops: seq<Update>): (r: seq<UnitRecord>)
    ensures |view| <= |r| <= |view| + |ops|
  {
    if ops == [] then view
    else
      var last := ops[|ops| - 1];
      Updated(ApplyAll(view, ops[..|ops| - 1]), last.unitId, last.status, last.date)
  }

  /** The trail entries a run of updates gives to `id`, in call order. */
  function EntriesFor(ops: seq<Update>, id: string): seq<StatusEntry>
  {
    if ops == [] then []
    else
      var last := ops[|ops| - 1];
      EntriesFor(ops[..|ops| - 1], id) + if last.unitId == id then [StatusEntry(last.status, last.date)] else []
  }

  /** The number of updates in a run that name `id`. */
  function CountFor(ops: seq<Update>, id: string): (n: nat)
    ensures n <= |ops|
  {
    if ops == [] then 0
    else CountFor(ops[..|ops| - 1], id) + if ops[|ops| - 1].unitId == id then 1 else 0
  }

  /** A run gives `id` exactly one trail entry per update that names it. */
  lemma {:induction false} EntriesForCount(ops: seq<Update>, id: string)
    ensures |EntriesFor(ops, id)| == CountFor(ops, id)
  {
    if ops != [] {
      EntriesForCount(ops[..|ops| - 1], id);
    }
  }

  /** The status given to `id` by the most recent update for it, if any. */
  function LastStatusFor(ops: seq<Update>, id: string): Option<string>
  {
    if ops == [] then None
    else if ops[|ops| - 1].unitId == id then Some(ops[|ops| - 1].status)
    else LastStatusFor(ops[..|ops| - 1], id)
  }

  /** After a run of updates, a unit's trail is its trail before followed by
      one entry per update for it, in call order. */
  lemma {:induction false} ApplyAllTrail(view: seq<UnitRecord>, ops: seq<Update>, id: string)
    ensures Trail(ApplyAll(view, ops), id) == Trail(view, id) + EntriesFor(ops, id)
  {
    if ops != [] {
      var init, last := ops[..|ops| - 1], ops[|ops| - 1];
      ApplyAllTrail(view, init, id);
      if last.unitId == id {
        UpdatedLookup(ApplyAll(view, init), id, last.status, last.date);
      } else {
        UpdatedLookupOther(ApplyAll(view, init), last.unitId, last.status, last.date, id);
      }
    }
  }

  /** After a run of updates a unit's trail is longer by exactly the number
      of updates that name it. */
  lemma ApplyAllTrailLength(view: seq<UnitRecord>, ops: seq<Update>, id: string)
    ensures |Trail(ApplyAll(view, ops), id)| == |Trail(view, id)| + CountFor(ops, id)
  {
    ApplyAllTrail(view, ops, id);
    EntriesForCount(ops, id);
  }


  /** After a run of updates, a unit's status is the last one given to it;
      a unit the run never names is untouched. */
  lemma {:induction false} ApplyAllLastStatus(view: seq<UnitRecord>, ops: seq<Update>, id: string)
    ensures LastStatusFor(ops, id).None? ==> Lookup(ApplyAll(view, ops), id) == Lookup(view, id)
    ensures LastStatusFor(ops, id).Some? ==>
              Lookup(ApplyAll(view, ops), id).Some? &&
              Lookup(ApplyAll(view, ops), id).value.status == LastStatusFor(ops, id).value
  {
    if ops != [] {
      var init, last := ops[..|ops| - 1], ops[|ops| - 1];
      ApplyAllLastStatus(view, init, id);
      if last.unitId == id {
        UpdatedLookup(ApplyAll(view, init), id, last.status, last.date);
      } else {
        UpdatedLookupOther(ApplyAll(view, init), last.unitId, last.status, last.date, id);
      }
    }
  }

  /** Unit ids stay unique over any run of updates. */
  lemma {:induction false} ApplyAllKeepsUnique(view: seq<UnitRecord>, ops: seq<Update>)
    requires Unique(IdsOf(view))
    ensures Unique(IdsOf(ApplyAll(view, ops)))
  {
    if ops != [] {
      var init, last := ops[..|ops| - 1], ops[|ops| - 1];
      ApplyAllKeepsUnique(view, init);
      UpdatedKeepsUnique(ApplyAll(view, init), last.unitId, last.status, last.date);
    }
  }

  /** Units already present keep their positions: the old id list is a
      prefix of the new one. */
  lemma {:induction false} ApplyAllKeepsOrder(view: seq<UnitRecord>, ops: seq<Update>)
    ensures IdsOf(view) <= IdsOf(ApplyAll(view, ops))
  {
    if ops != [] {
      var init, last := ops[..|ops| - 1], ops[|ops| - 1];
      ApplyAllKeepsOrder(view, init);
      UpdatedIds(ApplyAll(view, init), last.unitId, last.status, last.date);
    }
  }

  /** N updates of one id, starting from an empty registry, leave exactly one
      unit: its trail has N entries and its status is the last one given. */
  lemma {:induction false} RepeatedUpdates(ops: seq<Update>, id: string)
    requires |ops| > 0
    requires forall i :: 0 <= i < |ops| ==> ops[i].unitId == id
    ensures |ApplyAll([], ops)| == 1
    ensures ApplyAll([], ops)[0].id == id
    ensures |ApplyAll([], ops)[0].checkpoints| == |ops|
    ensures ApplyAll([], ops)[0].status == ops[|ops| - 1].status
  {
    ApplyAllTrail([], ops, id);
    ApplyAllLastStatus([], ops, id);
    SameIdEntries(ops, id);
    SameIdIds(ops, id);
  }

  lemma {:induction false} SameIdEntries(ops: seq<Update>, id: string)
    requires forall i :: 0 <= i < |ops| ==> ops[i].unitId == id
    ensures |EntriesFor(ops, id)| == |ops|
  {
    if ops != [] {
      SameIdEntries(ops[..|ops| - 1], id);
    }
  }

  lemma {:induction false} SameIdIds(ops: seq<Update>, id: string)
    requires |ops| > 0
    requires forall i :: 0 <= i < |ops| ==> ops[i].unitId == id
    ensures IdsOf(ApplyAll([], ops)) == [id]
  {
    var init, last := ops[..|ops| - 1], ops[|ops| - 1];
    if |ops| > 1 {
      SameIdIds(init, id);
    }
    UpdatedIds(ApplyAll([], init), last.unitId, last.status, last.date);
  }

  /** One tracked unit. Its id never changes; its status and trail are
      updated in place. */
  class Unit {
    const id: string
    var status: string
    var checkpoints: seq<StatusEntry>

    constructor (id: string, status: string)
      ensures this.id == id && this.status == status && checkpoints == []
    {
      this.id := id;
      this.status := status;
      checkpoints := [];
    }

    /** The unit as a value. */
    function Record(): UnitRecord
      reads this
    {
      UnitRecord(id, status, checkpoints)
    }
  }

  function Ids(us: seq<Unit>): seq<string>
  {
    seq(|us|, i requires 0 <= i < |us| => us[i].id)
  }

  function Records(us: seq<Unit>): (r: seq<UnitRecord>)
    reads us
    ensures IdsOf(r) == Ids(us)
  {
    seq(|us|, i requires 0 <= i < |us| reads us => us[i].Record())
  }

  /** The units of `us` whose current status is `status`, in order. Only the
      current status is read, never the trail. */
  function WithStatus(us: seq<Unit>, status: string): (r: seq<Unit>)
    reads us
    ensures forall i :: 0 <= i < |r| ==> r[i] in us && r[i].status == status
    ensures forall i :: 0 <= i < |us| && us[i].status == status ==> us[i] in r
    ensures |r| <= |us|
  {
    if us == [] then []
    else (if us[0].status == status then [us[0]] else []) + WithStatus(us[1..], status)
  }

  /** Selecting by status from a concatenation selects from each part, in order. */
  lemma {:induction false} WithStatusAppend(us: seq<Unit>, vs: seq<Unit>, status: string)
    ensures WithStatus(us + vs, status) == WithStatus(us, status) + WithStatus(vs, status)
  {
    if us == [] {
      assert us + vs == vs;
    } else {
      assert (us + vs)[1..] == us[1..] + vs;
      WithStatusAppend(us[1..], vs, status);
    }
  }

  /** The records of a list grown at its end by one unit. */
  lemma RecordsAppend(us: seq<Unit>, u: Unit)
    ensures Records(us + [u]) == Records(us) + [u.Record()]
  {
  }

  /** A list whose unit objects did not change has the same records. */
  twostate lemma RecordsUnchanged(us: seq<Unit>)
    requires forall j :: 0 <= j < |us| ==> unchanged(us[j])
    ensures Records(us) == old(Records(us))
  {
  }

  /** When one unit object of a list changes and the others do not, only
      that unit's record changes. */
  twostate lemma RecordsAfterOneChange(us: seq<Unit>, new k: nat)
    requires k < |us| && forall j :: 0 <= j < |us| && j != k ==> unchanged(us[j])
    ensures Records(us) == old(Records(us))[k := us[k].Record()]
  {
  }

  /** The registry: units in the order they were first seen, ids unique. */
  class UnitStatusService {
    var units: seq<Unit>

    ghost predicate Valid()
      reads this
    {
      Unique(Ids(units))
    }

    constructor ()
      ensures Valid() && units == []
    {
      units := [];
    }

    /** The registry's value: one record per unit, in registry order. */
    function View(): seq<UnitRecord>
      reads this, units
    {
      Records(units)
    }

    /** Gives `unitId` the status `newStatus`, creating the unit first if the
        registry has none with that id, and returns that unit. */
    method UpdateUnitStatus(unitId: string, newStatus: string, date: string) returns (unit: Unit)
      requires Valid()
      modifies this, units
      ensures Valid()
      ensures View() == Updated(old(View()), unitId, newStatus, date)
      ensures unit in units && unit.id == unitId && unit.status == newStatus
      ensures unit.checkpoints == Trail(old(View()), unitId) + [StatusEntry(newStatus, date)]
      ensures unitId in old(Ids(units)) ==> units == old(units)
      ensures unitId !in old(Ids(units)) ==> fresh(unit) && units == old(units) + [unit]
    {
      ghost var before := View();
      label Start:
      var found := IndexOfId(Ids(units), unitId);
      var k: nat;
      if found.None? {
        unit := new Unit(unitId, newStatus);
        units := units + [unit];
        k := |units| - 1;
        RecordsUnchanged@Start(old(units));
        RecordsAppend(old(units), unit);
        assert Trail(before, unitId) == [];
      } else {
        k := found.value;
        unit := units[k];
        assert forall j :: 0 <= j < |units| ==> Ids(units)[j] == units[j].id;
        assert Trail(before, unitId) == unit.checkpoints;
      }
      assert forall j :: 0 <= j < |units| && j != k ==> units[j] != unit;
      ghost var grown := View();
      assert grown == if found.None? then before + [unit.Record()] else before;
      label Grown:
      unit.status := newStatus;
      unit.checkpoints := unit.checkpoints + [StatusEntry(newStatus, date)];
      RecordsAfterOneChange@Grown(units, k);
      assert IdsOf(before) == Ids(old(units));
      assert View() == grown[k := unit.Record()];
      assert IndexOfId(IdsOf(before), unitId) == found;
      if found.None? {
        assert unit.checkpoints == [StatusEntry(newStatus, date)];
        assert k == |before|;
        assert View() == before + [unit.Record()];
      } else {
        assert View() == before[k := unit.Record()];
      }
      assert View() == Updated(before, unitId, newStatus, date);
      UpdatedKeepsUnique(before, unitId, newStatus, date);
      assert Ids(units) == IdsOf(View());
    }

    /** The units whose current status is `status`, in registry order. */
    function GetUnitsByStatus(status: string): (r: seq<Unit>)
      reads this, units
      ensures forall i :: 0 <= i < |r| ==> r[i] in units && r[i].status == status
      ensures forall i :: 0 <= i < |units| && units[i].status == status ==> units[i] in r
      ensures |r| <= |units|
    {
      WithStatus(units, status)
    }
  }
}
