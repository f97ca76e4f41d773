/**
 * The module-state-change handler: routing and handling of the event
 * that the module build service sends when a module build changes state.
 */
module Handler {
  import opened Wrappers
  import opened Model
  import opened Reconciliation
  import opened Cascade

  /** The handler accepts exactly the module-state-change events. */
  function CanHandle(e: Event): (r: bool)
    ensures r <==> exists change :: e == MbsModuleStateChange(change)
  {
    match e
    case MbsModuleStateChange(_) => true
    case _ => false
  }

  /** The dependency query the cascade makes: active modules that build-depend
      on the event's module and stream. */
  function DependencyQuery(change: ModuleStateChange): Action {
    Query(change.moduleName, change.stream, true)
  }

  /** Handles one module-state-change event against the store: reconcile the
      tracked build, then, when the module became ready, run the cascade over
      its dependents and append the builds it recorded. */
  function Handle(change: ModuleStateChange, store: Store, c: Collaborators): Result<Outcome, Error> {
    var reconciled :- Reconcile(change, store);
    if change.state == MbsReady then
      var q := DependencyQuery(change);
      var trace := Run(c, change, c.dependents(q.depName, q.depStream, q.activeOnly));
      Success(Outcome(reconciled + trace.created, [q] + trace.actions, []))
    else
      Success(Outcome(reconciled, [], []))
  }

  /** The handler as the source writes it: a lookup, a duplicate check, an
      in-place state update, then one pass over the dependents. */
  method HandleLoop(change: ModuleStateChange, store: Store, c: Collaborators) returns (r: Result<Outcome, Error>)
    ensures r == Handle(change, store, c)
  {
    var builds := MatchIndices(store, change.buildId);
    if |builds| > 1 {
      return Failure(DuplicateBuild(change.buildId));
    }
    var s := store;
    if |builds| == 1 {
      var i := builds[0];
      var state := s[i].state;
      if change.state == MbsReady {
        state := Done;
      }
      if change.state == MbsFailed {
        state := Failed;
      }
      s := s[i := s[i].(state := state)];
    }
    if change.state != MbsReady {
      return Success(Outcome(s, [], []));
    }
    var q := DependencyQuery(change);
    var deps := c.dependents(q.depName, q.depStream, q.activeOnly);
    var actions := [q];
    var created := [];
    var k := 0;
    while k < |deps|
      invariant 0 <= k <= |deps|
      invariant |actions| >= 1 && actions[0] == q
      invariant Run(c, change, deps[..k]) == Trace(actions[1..], created)
    {
      var mod := deps[k];
      RunExtend(c, change, deps[..k], mod);
      assert deps[..k + 1] == deps[..k] + [mod];
      if Allowed(c, change, mod) {
        var msg := BumpMessage(change.moduleName);
        var rev := c.bumpRepo(DistgitNamespace, mod.name, mod.version, msg);
        var id := c.buildModule(mod.name, mod.version, rev);
        actions := actions + [Bump(DistgitNamespace, mod.name, mod.version, msg, rev), Dispatch(mod.name, mod.version, rev, id)];
        if id.Some? {
          created := created + [NewRecord(c, change, mod.name, id.value)];
        }
      }
      k := k + 1;
    }
    assert deps[..k] == deps;
    assert actions == [q] + actions[1..];
    assert Reconcile(change, store) == Success(s);
    return Success(Outcome(s + created, actions, []));
  }
}
