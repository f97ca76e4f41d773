/**
 * Properties of the module-state-change handler: the routing check, the
 * duplicate error, the state mapping and its frame, the shape and order
 * of the cascade's requests, and the records the cascade leaves behind.
 */
module Properties {
  import opened Wrappers
  import opened Model
  import opened Reconciliation
  import opened Cascade
  import opened Handler

  // ---------------------------------------------------------------------
  // Cascade
  // ---------------------------------------------------------------------

  /** `log` is, for each dependent of `acc` in order, its bump followed by
      its dispatch, and nothing else. */
  predicate PairedLog(c: Collaborators, change: ModuleStateChange, log: seq<Action>, acc: seq<Dependent>) {
    && |log| == 2 * |acc|
    && forall k :: 0 <= k < |acc| ==>
         log[2 * k] == BumpAction(c, change, acc[k]) && log[2 * k + 1] == DispatchAction(c, change, acc[k])
  }

  /** Prefixing one dependent's bump and dispatch extends a paired log. */
  lemma PairedLogCons(c: Collaborators, change: ModuleStateChange, log: seq<Action>, acc: seq<Dependent>, d: Dependent)
    requires PairedLog(c, change, log, acc)
    ensures PairedLog(c, change, [BumpAction(c, change, d), DispatchAction(c, change, d)] + log, [d] + acc)
  {
  }

  /** Each accepted dependent, in order, contributes exactly a bump of its
      repo followed by a dispatch at the bumped revision; rejected ones
      contribute nothing. */
  lemma {:induction false} RunShape(c: Collaborators, change: ModuleStateChange, deps: seq<Dependent>)
    ensures PairedLog(c, change, Run(c, change, deps).actions, Accepted(c, change, deps))
    decreases |deps|
  {
    if deps != [] {
      RunShape(c, change, deps[1..]);
      if Allowed(c, change, deps[0]) {
        PairedLogCons(c, change, Run(c, change, deps[1..]).actions, Accepted(c, change, deps[1..]), deps[0]);
      }
    }
  }

  /** The records of a concatenated log are the records of its parts. */
  lemma {:induction false} RecordsOfAppend(c: Collaborators, change: ModuleStateChange, a: seq<Action>, b: seq<Action>)
    ensures RecordsOf(c, change, a + b) == RecordsOf(c, change, a) + RecordsOf(c, change, b)
    decreases |a|
  {
    if a != [] {
      assert (a + b)[0] == a[0];
      assert (a + b)[1..] == a[1..] + b;
      RecordsOfAppend(c, change, a[1..], b);
    } else {
      assert a + b == b;
    }
  }

  /** The cascade records a build exactly for each dispatch in its log that
      returned a build id, in log order, and nothing else. */
  lemma {:induction false} RunRecordsFollowLog(c: Collaborators, change: ModuleStateChange, deps: seq<Dependent>)
    ensures Run(c, change, deps).created == RecordsOf(c, change, Run(c, change, deps).actions)
    decreases |deps|
  {
    if deps != [] {
      var s := Step(c, change, deps[0]);
      var rest := Run(c, change, deps[1..]);
      RunRecordsFollowLog(c, change, deps[1..]);
      RecordsOfAppend(c, change, s.actions, rest.actions);
      if Allowed(c, change, deps[0]) {
        assert s.actions[1..] == [DispatchAction(c, change, deps[0])];
        assert s.actions[1..][1..] == [];
      }
    }
  }

  /** In a paired log, the requests concerning `d` are exactly its own bump
      and dispatch, and there are some exactly when `d` was paired. */
  lemma PairedLogConcerns(c: Collaborators, change: ModuleStateChange, log: seq<Action>, acc: seq<Dependent>, d: Dependent)
    requires PairedLog(c, change, log, acc)
    ensures (exists j :: 0 <= j < |log| && Concerns(log[j], d)) <==> d in acc
    ensures d in acc ==> BumpAction(c, change, d) in log && DispatchAction(c, change, d) in log
  {
    if j :| 0 <= j < |log| && Concerns(log[j], d) {
      var k := j / 2;
      assert j == 2 * k || j == 2 * k + 1;
      assert acc[k] == d;
    }
    if d in acc {
      var k :| 0 <= k < |acc| && acc[k] == d;
      assert log[2 * k] == BumpAction(c, change, d);
      assert Concerns(log[2 * k], d);
      assert log[2 * k + 1] == DispatchAction(c, change, d);
    }
  }

  /** The cascade's requests concern a dependent exactly when that dependent
      was returned by the query and accepted by the policy: a rejected
      dependent causes no bump and no dispatch, an accepted one both. */
  lemma RunTouchesExactlyAccepted(c: Collaborators, change: ModuleStateChange, deps: seq<Dependent>, d: Dependent)
    ensures var t := Run(c, change, deps).actions;
      (exists j :: 0 <= j < |t| && Concerns(t[j], d)) <==> d in deps && Allowed(c, change, d)
    ensures d in deps && Allowed(c, change, d) ==>
      BumpAction(c, change, d) in Run(c, change, deps).actions &&
      DispatchAction(c, change, d) in Run(c, change, deps).actions
  {
    RunShape(c, change, deps);
    PairedLogConcerns(c, change, Run(c, change, deps).actions, Accepted(c, change, deps), d);
  }

  // ---------------------------------------------------------------------
  // Reconciliation
  // ---------------------------------------------------------------------

  /** The lookup only reads build ids and artifact types, so it gives the
      same positions in a store whose builds differ only in other fields. */
  lemma {:induction false} MatchIndicesIgnoresState(s: Store, t: Store, id: BuildId)
    requires |s| == |t|
    requires forall i :: 0 <= i < |s| ==> s[i].buildId == t[i].buildId && s[i].atype == t[i].atype
    ensures MatchIndices(s, id) == MatchIndices(t, id)
    decreases |s|
  {
    if s != [] {
      MatchIndicesIgnoresState(s[..|s| - 1], t[..|t| - 1], id);
    }
  }

  /** Reconciliation is idempotent: delivering the same event again to the
      reconciled store changes nothing. */
  lemma ReconcileIdempotent(change: ModuleStateChange, store: Store, s: Store)
    requires Reconcile(change, store) == Success(s)
    ensures Reconcile(change, s) == Success(s)
  {
    var m := MatchIndices(store, change.buildId);
    if |m| == 1 {
      var i := m[0];
      assert s == store[i := store[i].(state := MapState(change.state, store[i].state))];
      assert MapState(change.state, s[i].state) == s[i].state;
      assert s[i := s[i].(state := MapState(change.state, s[i].state))] == s;
    }
    MatchIndicesIgnoresState(store, s, change.buildId);
  }

  // ---------------------------------------------------------------------
  // Handle
  // ---------------------------------------------------------------------

  /** Handling fails exactly when two tracked module builds share the
      event's build id, and the failure names that build id. */
  lemma HandleFailsOnDuplicate(change: ModuleStateChange, store: Store, c: Collaborators)
    ensures Handle(change, store, c).Failure? <==>
      exists i, j :: 0 <= i < j < |store| && Refers(store[i], change.buildId) && Refers(store[j], change.buildId)
    ensures Handle(change, store, c).Failure? ==> Handle(change, store, c).error == DuplicateBuild(change.buildId)
  {
    var r := Reconcile(change, store);
    assert r.Failure? ==> Handle(change, store, c) == Failure(r.error);
    assert r.Success? ==> Handle(change, store, c).Success?;
    DuplicateMatches(store, change.buildId);
  }

  /** With exactly one tracked module build for the event's build id, that
      build's state follows the event (ready gives done, failed gives failed,
      anything else keeps it), its other fields are kept, and every other
      tracked build is left as it was. */
  lemma HandleUpdatesUniqueMatch(change: ModuleStateChange, store: Store, c: Collaborators, i: nat)
    requires i < |store| && Refers(store[i], change.buildId)
    requires forall j :: 0 <= j < |store| && j != i ==> !Refers(store[j], change.buildId)
    ensures Handle(change, store, c).Success?
    ensures |Handle(change, store, c).value.store| >= |store|
    ensures change.state == MbsReady ==> Handle(change, store, c).value.store[i].state == Done
    ensures change.state == MbsFailed ==> Handle(change, store, c).value.store[i].state == Failed
    ensures change.state.MbsOther? ==> Handle(change, store, c).value.store[i] == store[i]
    ensures Handle(change, store, c).value.store[i] == store[i].(state := Handle(change, store, c).value.store[i].state)
    ensures forall j :: 0 <= j < |store| && j != i ==> Handle(change, store, c).value.store[j] == store[j]
  {
    OnlyMatchIndex(store, change.buildId, i);
  }

  /** With no tracked module build for the event's build id, the existing
      builds are all left as they were. */
  lemma HandleKeepsStoreWithoutMatch(change: ModuleStateChange, store: Store, c: Collaborators)
    requires forall j :: 0 <= j < |store| ==> !Refers(store[j], change.buildId)
    ensures Handle(change, store, c).Success?
    ensures |Handle(change, store, c).value.store| >= |store|
    ensures Handle(change, store, c).value.store[..|store|] == store
  {
    NoMatchIndex(store, change.buildId);
  }

  /** A successful handling emits no follow-up events, leaves every build
      the event does not refer to as it was, only appends module builds
      linked to the event, and does nothing further unless the event says
      ready. */
  lemma HandleFrame(change: ModuleStateChange, store: Store, c: Collaborators)
    ensures Handle(change, store, c).Success? ==>
      var o := Handle(change, store, c).value;
      && o.followUps == []
      && |o.store| >= |store|
      && (forall j :: 0 <= j < |store| && !Refers(store[j], change.buildId) ==> o.store[j] == store[j])
      && (forall j :: |store| <= j < |o.store| ==>
            o.store[j].atype == Module && o.store[j].triggeredBy == Some(MbsModuleStateChange(change)))
      && (change.state != MbsReady ==> o.actions == [] && |o.store| == |store|)
  {
    if Handle(change, store, c).Success? && change.state == MbsReady {
      var o := Handle(change, store, c).value;
      var q := DependencyQuery(change);
      var deps := c.dependents(q.depName, q.depStream, q.activeOnly);
      RunRecordsFollowLog(c, change, deps);
      var created := Run(c, change, deps).created;
      assert o.store == Reconcile(change, store).value + created;
      forall j | |store| <= j < |o.store|
        ensures o.store[j].atype == Module && o.store[j].triggeredBy == Some(MbsModuleStateChange(change))
      {
        assert o.store[j] == created[j - |store|];
      }
    }
  }

  /** When the event says ready, the handler first queries the active
      dependents of the event's module and stream, then for each accepted
      dependent in order bumps its repo in the modules namespace on its
      version branch with the standard message and dispatches it at the
      revision that bump returned; the builds appended to the store are
      exactly the dispatches that returned a build id, in order. */
  lemma HandleCascadesOnReady(change: ModuleStateChange, store: Store, c: Collaborators)
    requires change.state == MbsReady
    requires Handle(change, store, c).Success?
    ensures var o := Handle(change, store, c).value;
      var acc := Accepted(c, change, c.dependents(change.moduleName, change.stream, true));
      && |o.actions| == 1 + 2 * |acc|
      && o.actions[0] == Query(change.moduleName, change.stream, true)
      && (forall k :: 0 <= k < |acc| ==>
            && o.actions[1 + 2 * k].Bump?
            && o.actions[1 + 2 * k].namespace == "modules"
            && o.actions[1 + 2 * k].repo == acc[k].name
            && o.actions[1 + 2 * k].branch == acc[k].version
            && o.actions[1 + 2 * k].message == "Bump to rebuild because of " + change.moduleName + " update"
            && o.actions[1 + 2 * k].revision == c.bumpRepo("modules", acc[k].name, acc[k].version,
                                                           o.actions[1 + 2 * k].message)
            && o.actions[2 + 2 * k].Dispatch?
            && o.actions[2 + 2 * k].name == acc[k].name
            && o.actions[2 + 2 * k].version == acc[k].version
            && o.actions[2 + 2 * k].rev == o.actions[1 + 2 * k].revision
            && o.actions[2 + 2 * k].returned == c.buildModule(acc[k].name, acc[k].version, o.actions[2 + 2 * k].rev))
      && |o.store| >= |store|
      && o.store[|store|..] == RecordsOf(c, change, o.actions[1..])
  {
    var o := Handle(change, store, c).value;
    var deps := c.dependents(change.moduleName, change.stream, true);
    var t := Run(c, change, deps);
    var acc := Accepted(c, change, deps);
    RunShape(c, change, deps);
    RunRecordsFollowLog(c, change, deps);
    assert o.actions[1..] == t.actions;
    forall k | 0 <= k < |acc|
      ensures o.actions[1 + 2 * k] == BumpAction(c, change, acc[k])
      ensures o.actions[2 + 2 * k] == DispatchAction(c, change, acc[k])
    {
      assert o.actions[1 + 2 * k] == t.actions[2 * k];
      assert o.actions[2 + 2 * k] == t.actions[2 * k + 1];
    }
    assert o.store[|store|..] == t.created;
  }

  /** A dependent the policy rejects, or one the query did not return,
      causes no request; one it accepts is bumped and dispatched. */
  lemma HandleTouchesExactlyAccepted(change: ModuleStateChange, store: Store, c: Collaborators, d: Dependent)
    requires Handle(change, store, c).Success?
    ensures var o := Handle(change, store, c).value;
      var deps := c.dependents(change.moduleName, change.stream, true);
      (exists j :: 0 <= j < |o.actions| && Concerns(o.actions[j], d))
        <==> change.state == MbsReady && d in deps && Allowed(c, change, d)
  {
    var o := Handle(change, store, c).value;
    var deps := c.dependents(change.moduleName, change.stream, true);
    if change.state == MbsReady {
      var t := Run(c, change, deps).actions;
      RunTouchesExactlyAccepted(c, change, deps, d);
      assert o.actions == [DependencyQuery(change)] + t;
      if j :| 0 <= j < |o.actions| && Concerns(o.actions[j], d) {
        assert j > 0 && Concerns(t[j - 1], d);
      }
      if jt :| 0 <= jt < |t| && Concerns(t[jt], d) {
        assert o.actions[jt + 1] == t[jt];
      }
    }
  }

  /** Delivering the same event again to the store a handling left behind
      keeps the state of the build it reconciled, whenever that second
      delivery succeeds. */
  lemma HandleRedeliveryKeepsState(change: ModuleStateChange, store: Store, c: Collaborators, i: nat)
    requires i < |store| && Refers(store[i], change.buildId)
    requires forall j :: 0 <= j < |store| && j != i ==> !Refers(store[j], change.buildId)
    ensures Handle(change, store, c).Success?
    ensures var o := Handle(change, store, c).value;
      Handle(change, o.store, c).Success? ==> Handle(change, o.store, c).value.store[i] == o.store[i]
  {
    HandleUpdatesUniqueMatch(change, store, c, i);
    var o := Handle(change, store, c).value;
    if Handle(change, o.store, c).Success? {
      var m := MatchIndices(o.store, change.buildId);
      assert Refers(o.store[i], change.buildId);
      assert i in m;
      assert |m| <= 1;
      assert m == [i];
    }
  }
}
