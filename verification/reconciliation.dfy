/**
 * The reconciliation step of the handler: find the tracked module build
 * the event reports on and map the external state onto it.
 */
module Reconciliation {
  import opened Wrappers
  import opened Model

  /** The lookup key of the handler: same build id, module-typed. */
  predicate Refers(b: ArtifactBuild, id: BuildId) {
    b.buildId == id && b.atype == Module
  }

  /** Positions, ascending, of the tracked builds with the given key. */
  function MatchIndices(store: Store, id: BuildId): (r: seq<nat>)
    ensures forall k :: 0 <= k < |r| ==> r[k] < |store| && Refers(store[r[k]], id)
    ensures forall i :: 0 <= i < |store| && Refers(store[i], id) ==> i in r
    ensures forall k, l :: 0 <= k < l < |r| ==> r[k] < r[l]
    decreases |store|
  {
    if store == [] then []
    else
      var last := |store| - 1;
      MatchIndices(store[..last], id) + (if Refers(store[last], id) then [last] else [])
  }

  /** The state a tracked build takes when the build service reports
      `external`: ready becomes done, failed becomes failed, anything
      else keeps `current`. */
  function MapState(external: MbsState, current: BuildState): BuildState {
    match external
    case MbsReady => Done
    case MbsFailed => Failed
    case MbsOther(_) => current
  }

  /** Reconciles the store with the event: an error on a duplicate key,
      the one matching build's state mapped when there is exactly one,
      the store untouched when there is none. */
  function Reconcile(change: ModuleStateChange, store: Store): (r: Result<Store, Error>)
    ensures r.Failure? <==> |MatchIndices(store, change.buildId)| > 1
    ensures r.Success? ==> |r.value| == |store|
    ensures r.Success? ==> forall i :: 0 <= i < |store| && !Refers(store[i], change.buildId) ==> r.value[i] == store[i]
  {
    var matches := MatchIndices(store, change.buildId);
    if |matches| > 1 then Failure(DuplicateBuild(change.buildId))
    else if |matches| == 1 then
      var i := matches[0];
      Success(store[i := store[i].(state := MapState(change.state, store[i].state))])
    else Success(store)
  }

  /** Without a build under the key, the lookup finds nothing. */
  lemma {:induction false} NoMatchIndex(store: Store, id: BuildId)
    requires forall j :: 0 <= j < |store| ==> !Refers(store[j], id)
    ensures MatchIndices(store, id) == []
    decreases |store|
  {
    if store != [] {
      var init := store[..|store| - 1];
      assert forall j :: 0 <= j < |init| ==> init[j] == store[j];
      NoMatchIndex(init, id);
    }
  }

  /** With exactly one build under the key, the lookup finds exactly it. */
  lemma {:induction false} OnlyMatchIndex(store: Store, id: BuildId, i: nat)
    requires i < |store| && Refers(store[i], id)
    requires forall j :: 0 <= j < |store| && j != i ==> !Refers(store[j], id)
    ensures MatchIndices(store, id) == [i]
    decreases |store|
  {
    var last := |store| - 1;
    var init := store[..last];
    assert forall j :: 0 <= j < |init| ==> init[j] == store[j];
    assert MatchIndices(store, id) == MatchIndices(init, id) + (if Refers(store[last], id) then [last] else []);
    if i == last {
      NoMatchIndex(init, id);
    } else {
      OnlyMatchIndex(init, id, i);
    }
  }

  /** The lookup finds more than one build exactly when two distinct
      builds carry the key. */
  lemma DuplicateMatches(store: Store, id: BuildId)
    ensures |MatchIndices(store, id)| > 1 <==>
      exists i, j :: 0 <= i < j < |store| && Refers(store[i], id) && Refers(store[j], id)
  {
    var m := MatchIndices(store, id);
    if i, j :| 0 <= i < j < |store| && Refers(store[i], id) && Refers(store[j], id) {
      assert i in m && j in m;
    }
    if |m| > 1 {
      assert 0 <= m[0] < m[1] < |store|;
    }
  }
}
