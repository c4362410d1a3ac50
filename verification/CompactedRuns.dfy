/** Runs in which API calls and compactions follow each other in any order. */
module CompactedRuns {
  import opened Bytes
  import opened Records
  import opened Operations
  import opened DatabaseState
  import opened Calls
  import opened UniqueConstraint
  import opened Compaction
  import opened Runs
  import opened LogCompaction

  datatype Action = Do(call: Call) | CompactNow

  /** No collection id was reused, and the index records that stay define the indexes as they are. */
  ghost predicate Compactable(enc: Encoder, w: World) {
    |w.file| >= FILE_HEADER_BYTES && IdsNeverReused(OpsOf(enc, w.file)) && KeptIndexesAgree(w.db, OpsOf(enc, w.file))
  }

  ghost predicate ReasonableAction(enc: Encoder, w: World, a: Action) {
    match a
    case Do(call) => Reasonable(enc, w.db, call)
    case CompactNow => Compactable(enc, w)
  }

  function Act(enc: Encoder, w: World, a: Action): World {
    match a
    case Do(call) => After(enc, w, call)
    case CompactNow => if |w.file| < FILE_HEADER_BYTES then w else Compact(enc, w)
  }

  function RunAll(enc: Encoder, w: World, actions: seq<Action>): World {
    if |actions| == 0 then w else Act(enc, RunAll(enc, w, actions[..|actions| - 1]), actions[|actions| - 1])
  }

  ghost predicate ReasonableActions(enc: Encoder, w: World, actions: seq<Action>) {
    forall i :: 0 <= i < |actions| ==> ReasonableAction(enc, RunAll(enc, w, actions[..i]), actions[i])
  }

  lemma ActSynced(enc: Encoder, w: World, a: Action)
    requires Synced(enc, w) && ReasonableAction(enc, w, a)
    ensures Synced(enc, Act(enc, w, a))
  {
    hide Synced, Reasonable, IdsNeverReused, KeptIndexesAgree, OpsOf, Compact, After;
    match a
    case Do(call) => CallSynced(enc, w, call);
    case CompactNow => CompactionSynced(enc, w);
  }

  lemma ShorterActions(enc: Encoder, w: World, actions: seq<Action>, m: nat)
    requires ReasonableActions(enc, w, actions) && m <= |actions|
    ensures ReasonableActions(enc, w, actions[..m])
  {
    hide RunAll, ReasonableAction;
    forall i | 0 <= i < m
      ensures ReasonableAction(enc, RunAll(enc, w, actions[..m][..i]), actions[..m][i])
    {
      assert actions[..m][..i] == actions[..i];
    }
  }

  /**
   After every call and every compaction of every run, opening the file gives the state in memory:
   collections, documents with their offsets, index definitions and index contents.
   */
  lemma {:induction false} ActionsSynced(enc: Encoder, w: World, actions: seq<Action>)
    requires Synced(enc, w) && ReasonableActions(enc, w, actions)
    ensures Synced(enc, RunAll(enc, w, actions))
    decreases |actions|
  {
    hide Synced, Act, ReasonableAction;
    if |actions| > 0 {
      var m := |actions| - 1;
      ShorterActions(enc, w, actions, m);
      ActionsSynced(enc, w, actions[..m]);
      assert ReasonableAction(enc, RunAll(enc, w, actions[..m]), actions[m]);
      ActSynced(enc, RunAll(enc, w, actions[..m]), actions[m]);
    }
  }
}
