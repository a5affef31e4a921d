# Checkpoint tracking model

A Dafny model of the in-memory tracking core of a small checkpoint service
(`app.ts`). The core has two stores:

- the **checkpoint log** (`CheckpointManager`, module `CheckpointLog` in
  `checkpoint_log.dfy`): an append-only list of checkpoint records. Recording
  a checkpoint appends one record and returns the whole log; the per-unit
  history is the log filtered by unit id, in insertion order;
- the **unit registry** (`UnitStatusService`, module `UnitRegistry` in
  `unit_registry.dfy`): a list of unit objects. Updating a unit's status finds
  the unit by id, creates and appends it when there is none, then overwrites its
  status and appends a `{status, date}` entry to its own trail. Selecting units
  by status filters the list by current status, in registry order.

Both stores are classes, as in the source. Where the source pushes onto an
array in place (the log, the unit list and a unit's trail), the model assigns
the field a new sequence one element longer. What this loses is the aliasing
of the arrays the source hands out (the returned log, a unit's trail, the
stores' public arrays), listed under "Left out". A `Unit` is a
class too, since the source changes a unit's `status` and `checkpoints` in
place through the reference `find` returned. The queries are
functions over those fields, specified by recursive filter functions.

The unit registry is also described by its value, `View()`: one `UnitRecord`
per unit. `Updated` gives the effect of one status update on that value, and
`ApplyAll` the effect of a run of updates. The update method is proved to move
`View()` exactly as `Updated` says. Uniqueness of ids, per-unit trail length
and "last status wins" are proved as lemmas about `Updated` and `ApplyAll`.

`tracking_scenario.dfy` drives both stores through two checkpoints for one
unit, "started" then "done", using the stores' contracts and the definitions
of the value functions.

Inputs that the source takes from the host are parameters of the model:

- the checkpoint id (`Math.random().toString()` in the source) is the `id`
  argument of `CreateCheckpoint`;
- the checkpoint timestamp is passed already rendered (the source renders a
  `Date` with `toISOString()`);
- the trail entry date (`new Date().toString()` in the source) is the `date`
  argument of `UpdateUnitStatus`.

## Model

| member | source | states |
|---|---|---|
| `CheckpointLog.HistoryOf` | app.ts:15-17 | the result holds exactly the log entries whose unit id is the one asked for, and is never longer than the log |
| `CheckpointLog.HistoryOfAppend` | app.ts:16 | filtering a concatenation is the concatenation of the filtered parts, so log order is kept |
| `CheckpointLog.AppendThenHistory` | app.ts:5-17 | after an entry is appended, its unit's history ends with it and is one longer; every other unit's history is unchanged |
| `CheckpointLog.HistoryOfAbsent` | app.ts:15-17 | a log with no entry for the unit gives an empty history |
| `CheckpointLog.HistoryOfMultiplicity` | app.ts:16 | each matching entry occurs in the history as often as in the log; no other entry occurs |
| `CheckpointLog.CheckpointManager.constructor` | app.ts:4 | the log starts empty |
| `CheckpointLog.CheckpointManager.CreateCheckpoint` | app.ts:5-14 | the log becomes the old log plus one record with the given id, unit id, status and timestamp and an empty history field; the whole log is returned; that unit's history gains exactly this entry at its end and other histories are unchanged |
| `CheckpointLog.CheckpointManager.GetHistory` | app.ts:15-17 | returns exactly the logged checkpoints for the unit, reads the log without changing it |
| `UnitRegistry.IndexOfId` | app.ts:22 | the search finds the first unit with the id, or reports none exactly when no unit has it |
| `UnitRegistry.Updated` | app.ts:22-28 | the registry's value after one status update (the unit with the id is found first, created at the end when absent, then given the new status and one more `{status, date}` trail entry); its contract states that the registry grows by one exactly when the id was absent, and the `Updated*` lemmas below state the rest |
| `UnitRegistry.UpdatedIds` | app.ts:22-26 | one update keeps the id list when the id is registered and appends the id at the end otherwise |
| `UnitRegistry.UpdatedKeepsUnique` | app.ts:22-26 | one update keeps unit ids unique, because a unit is pushed only when the search found none |
| `UnitRegistry.UpdatedLookup` | app.ts:21-30 | after one update the unit with that id has the new status and its old trail (empty for a new unit) followed by one `{status, date}` entry |
| `UnitRegistry.UpdatedLookupOther` | app.ts:21-30 | one update leaves the record of every other id as it was, including its absence |
| `UnitRegistry.UpdatedKeepsOthers` | app.ts:22-29 | one update never shortens the registry and changes no position holding another unit |
| `UnitRegistry.ApplyAll` | app.ts:21-30 | the registry's value after a run of update calls, oldest first; the registry never shrinks and grows by at most one unit per call |
| `UnitRegistry.ApplyAllTrail` | app.ts:21-30 | after any run of updates a unit's trail is its old trail followed by one entry per update for it, in call order |
| `UnitRegistry.CountFor` | app.ts:21-30 | the number of calls in a run that name the unit, never more than the calls in the run |
| `UnitRegistry.EntriesForCount` | app.ts:28 | a run adds exactly one trail entry per call naming the unit |
| `UnitRegistry.ApplyAllTrailLength` | app.ts:21-30 | after any run of updates a unit's trail is longer by exactly the number of calls that name it |
| `UnitRegistry.ApplyAllLastStatus` | app.ts:21-30 | after any run of updates a unit's status is the last one given to it; a unit the run never names is untouched |
| `UnitRegistry.ApplyAllKeepsUnique` | app.ts:22-26 | unit ids stay unique over any run of updates, because a unit is pushed only when the search found none |
| `UnitRegistry.ApplyAllKeepsOrder` | app.ts:22-26 | units already registered keep their positions; new units only ever go at the end |
| `UnitRegistry.RepeatedUpdates` | app.ts:21-30 | N updates of one id from an empty registry leave one unit with that id, a trail of N entries and the last status given |
| `UnitRegistry.WithStatus` | app.ts:32 | the result holds exactly the units whose current status is the one asked for, and is never longer than the list |
| `UnitRegistry.WithStatusAppend` | app.ts:32 | selecting by status from a concatenation selects from each part in order, so registry order is kept |
| `UnitRegistry.Unit.constructor` | app.ts:24 | a new unit has the given id and status and an empty trail |
| `UnitRegistry.UnitStatusService.constructor` | app.ts:20 | the registry starts empty |
| `UnitRegistry.RecordsAppend` | app.ts:25 | pushing a unit object extends the registry's value by that unit's record |
| `UnitRegistry.RecordsUnchanged` | app.ts:21-30 | when no unit object changes, the registry's value is unchanged |
| `UnitRegistry.RecordsAfterOneChange` | app.ts:27-28 | when only the unit at one position changes in place, the registry's value changes at that position alone |
| `UnitRegistry.UnitStatusService.UpdateUnitStatus` | app.ts:21-30 | the registry's value moves exactly as `Updated` says and ids stay unique; the returned unit is in the registry, has the id and the new status, and its trail is its old trail (empty for a new unit) plus one entry; an unknown id appends one fresh unit at the end, a known id keeps the list of unit objects |
| `UnitRegistry.UnitStatusService.GetUnitsByStatus` | app.ts:31-33 | returns exactly the registered units whose current status matches, no more of them than are registered, reading only the registry |
| `TrackingScenario.TwoCheckpointsLogged` | app.ts:5-17 | two checkpoints for one unit leave a two-entry log in call order, and that unit's history is the whole log |
| `TrackingScenario.TwoStatusesValue` | app.ts:21-30 | "started" then "done" for one id from an empty registry gives one unit with status "done" and both entries in its trail |
| `TrackingScenario.TwoStatusesRegistered` | app.ts:21-33 | after "started" then "done", selecting "done" gives that one unit and selecting "started" gives none; its trail has two entries |

## Left out

- The HTTP routes, the web framework, JSON replies, the listening port, process exit and console output (app.ts:35-67). They only forward requests to the two stores.
- Random checkpoint ids: the id is a parameter. The model does not claim that checkpoint ids are unique. The source draws them at random and never checks for a collision, so nothing in it guarantees uniqueness.
- Clocks and date formatting: timestamps and trail dates are opaque strings passed in. The model does not capture that the log's timestamp and the trail's date are taken at two different moments in two different formats.
- Loose equality and missing request fields: ids and statuses are plain strings compared with ordinary equality. An `undefined` id or status from an unvalidated request body is not modelled.
- Asynchronous request handling: each store operation is one atomic step, as it is in the source.
- CheckpointManager.CreateCheckpoint: returns a copy of the log, not the live array. A caller holding the source's returned array would see later appends, and the model does not capture that aliasing.
- UnitRegistry.Unit.checkpoints: a sequence value, not the live trail array. A caller holding the source's trail array (through the unit returned by an update or selected by status) would see later entries, and the model does not capture that aliasing.
- CheckpointLog.CheckpointManager.checkpoints and UnitRegistry.UnitStatusService.units: sequence values. The source's fields are public arrays; a caller holding one would see later pushes, and the model does not capture that aliasing.
- Checkpoint.history: modelled as a sequence of strings that is always empty. The source declares no element type for it and never fills it.
