/** The checkpoint log: an append-only record of status events, one per
    "record checkpoint" request, queried per unit. */
module CheckpointLog {

  /** One status event. It is never changed after it is appended.
      `id` is the caller-supplied identifier and `timestamp` the already rendered
      time string. `history` is part of the record's shape but is always empty. */
  datatype Checkpoint = Checkpoint(
    id: string,
    unitId: string,
    status: string,
    timestamp: string,
    history: seq<string>)

  /** The entries of `log` that belong to `unitId`, in log order. */
  function HistoryOf(log: seq<Checkpoint>, unitId: string): (r: seq<Checkpoint>)
    ensures forall c :: c in r <==> c in log && c.unitId == unitId
    ensures |r| <= |log|
  {
    if log == [] then []
    else (if log[0].unitId == unitId then [log[0]] else []) + HistoryOf(log[1..], unitId)
  }

  /** Filtering a concatenation filters each part and keeps them in order;
      with the one-entry case below this pins down the order of the result. */
  lemma {:induction false} HistoryOfAppend(s: seq<Checkpoint>, t: seq<Checkpoint>, unitId: string)
    ensures HistoryOf(s + t, unitId) == HistoryOf(s, unitId) + HistoryOf(t, unitId)
  {
    if s == [] {
      assert s + t == t;
    } else {
      assert (s + t)[1..] == s[1..] + t;
      HistoryOfAppend(s[1..], t, unitId);
    }
  }

  /** Appending an entry extends that entry's unit history by exactly that
      entry, and leaves every other unit's history as it was. */
  lemma AppendThenHistory(log: seq<Checkpoint>, c: Checkpoint, unitId: string)
    ensures HistoryOf(log + [c], unitId) ==
            if c.unitId == unitId then HistoryOf(log, unitId) + [c] else HistoryOf(log, unitId)
  {
    HistoryOfAppend(log, [c], unitId);
    assert [c][1..] == [];
  }

  /** A log with no entry of the unit yields the empty history. */
  lemma {:induction false} HistoryOfAbsent(log: seq<Checkpoint>, unitId: string)
    requires forall i :: 0 <= i < |log| ==> log[i].unitId != unitId
    ensures HistoryOf(log, unitId) == []
  {
    if log != [] {
      HistoryOfAbsent(log[1..], unitId);
    }
  }

  /** Every matching entry is kept as often as it occurs in the log, and no
      other entry is kept: the history is the matching part of the log,
      duplicates included. */
  lemma {:induction false} HistoryOfMultiplicity(log: seq<Checkpoint>, unitId: string, c: Checkpoint)
    ensures multiset(HistoryOf(log, unitId))[c] == if c.unitId == unitId then multiset(log)[c] else 0
  {
    if log != [] {
      HistoryOfMultiplicity(log[1..], unitId, c);
      assert log == [log[0]] + log[1..];
    }
  }

  /** The store behind the checkpoint endpoints: one list of checkpoints. */
  class CheckpointManager {
    var checkpoints: seq<Checkpoint>

    constructor ()
      ensures checkpoints == []
    {
      checkpoints := [];
    }

    /** Records a checkpoint and returns the whole log, not only the new entry. */
    method CreateCheckpoint(id: string, unitId: string, status: string, timestamp: string)
      returns (log: seq<Checkpoint>)
      modifies this
      ensures checkpoints == old(checkpoints) + [Checkpoint(id, unitId, status, timestamp, [])]
      ensures log == checkpoints
      ensures GetHistory(unitId) == old(GetHistory(unitId)) + [checkpoints[|checkpoints| - 1]]
      ensures forall u :: u != unitId ==> GetHistory(u) == old(GetHistory(u))
    {
      var c := Checkpoint(id, unitId, status, timestamp, []);
      ghost var before := checkpoints;
      checkpoints := checkpoints + [c];
      log := checkpoints;
      AppendThenHistory(before, c, unitId);
      forall u | u != unitId
        ensures GetHistory(u) == HistoryOf(before, u)
      {
        AppendThenHistory(before, c, u);
      }
    }

    /** The checkpoints recorded for `unitId`, in the order they were recorded. */
    function GetHistory(unitId: string): (r: seq<Checkpoint>)
      reads this
      ensures forall c :: c in r <==> c in checkpoints && c.unitId == unitId
      ensures |r| <= |checkpoints|
    {
      HistoryOf(checkpoints, unitId)
    }
  }
}
