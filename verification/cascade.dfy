/**
 * The cascade step of the handler: for each dependent of a module that
 * became ready, consult the policy, bump the dependent's distgit repo,
 * dispatch a rebuild at the bumped revision, and track the rebuild when
 * the dispatch produced a build id.
 */
module Cascade {
  import opened Wrappers
  import opened Model

  /** The distgit namespace module repos live in. */
  const DistgitNamespace := "modules"

  /** Commit message of the bump made because `moduleName` was updated. */
  function BumpMessage(moduleName: string): string {
    "Bump to rebuild because of " + moduleName + " update"
  }

  /** The policy decision for one dependent, keyed on the triggering
      event, the module artifact type, and the dependent's name and version. */
  predicate Allowed(c: Collaborators, change: ModuleStateChange, d: Dependent) {
    c.allowBuild(MbsModuleStateChange(change), Module, d.name, d.version)
  }

  /** The bump requested for an accepted dependent, with the revision it returned. */
  function BumpAction(c: Collaborators, change: ModuleStateChange, d: Dependent): Action {
    var msg := BumpMessage(change.moduleName);
    Bump(DistgitNamespace, d.name, d.version, msg, c.bumpRepo(DistgitNamespace, d.name, d.version, msg))
  }

  /** The dispatch requested for an accepted dependent at the revision its
      bump returned, with the dispatch's answer. */
  function DispatchAction(c: Collaborators, change: ModuleStateChange, d: Dependent): Action {
    var rev := BumpAction(c, change, d).revision;
    Dispatch(d.name, d.version, rev, c.buildModule(d.name, d.version, rev))
  }

  /** The tracked build recorded for a dispatched rebuild. */
  function NewRecord(c: Collaborators, change: ModuleStateChange, name: string, id: BuildId): ArtifactBuild {
    ArtifactBuild(name, Module, id, c.recordState, Some(MbsModuleStateChange(change)))
  }

  /** What a stretch of the cascade did: requests issued and builds recorded. */
  datatype Trace = Trace(actions: seq<Action>, created: seq<ArtifactBuild>) {
    /** This stretch followed by `next`. */
    function Then(next: Trace): Trace {
      Trace(actions + next.actions, created + next.created)
    }
  }

  /** The handling of one dependent: nothing when the policy rejects it,
      otherwise a bump, then a dispatch at the bumped revision, then a
      record when the dispatch gave a build id. */
  function Step(c: Collaborators, change: ModuleStateChange, d: Dependent): Trace {
    if !Allowed(c, change, d) then Trace([], [])
    else
      var dispatch := DispatchAction(c, change, d);
      Trace([BumpAction(c, change, d), dispatch],
            if dispatch.returned.Some? then [NewRecord(c, change, d.name, dispatch.returned.value)] else [])
  }

  /** The cascade over the dependents, in the order they were given. */
  function Run(c: Collaborators, change: ModuleStateChange, deps: seq<Dependent>): Trace
    decreases |deps|
  {
    if deps == [] then Trace([], [])
    else Step(c, change, deps[0]).Then(Run(c, change, deps[1..]))
  }

  /** The dependents the policy accepts, in their original order. */
  function Accepted(c: Collaborators, change: ModuleStateChange, deps: seq<Dependent>): (r: seq<Dependent>)
    ensures |r| <= |deps|
    ensures forall d :: d in r <==> d in deps && Allowed(c, change, d)
    decreases |deps|
  {
    if deps == [] then []
    else
      var rest := Accepted(c, change, deps[1..]);
      assert forall d :: d in deps <==> d == deps[0] || d in deps[1..];
      if Allowed(c, change, deps[0]) then [deps[0]] + rest else rest
  }

  /** The filter keeps order: appending one more dependent appends it to
      the accepted ones exactly when the policy allows it. */
  lemma {:induction false} AcceptedExtend(c: Collaborators, change: ModuleStateChange, deps: seq<Dependent>, d: Dependent)
    ensures Accepted(c, change, deps + [d]) == Accepted(c, change, deps) + (if Allowed(c, change, d) then [d] else [])
    decreases |deps|
  {
    if deps == [] {
      assert [d][1..] == [];
      assert ([] + [d])[0] == d;
    } else {
      assert (deps + [d])[0] == deps[0];
      assert (deps + [d])[1..] == deps[1..] + [d];
      AcceptedExtend(c, change, deps[1..], d);
    }
  }

  /** The builds a request log leads to recording: one module-typed build
      linked to the event per dispatch that returned a build id, in order. */
  function RecordsOf(c: Collaborators, change: ModuleStateChange, actions: seq<Action>): (r: seq<ArtifactBuild>)
    ensures |r| <= |actions|
    ensures forall k :: 0 <= k < |r| ==>
      r[k].atype == Module && r[k].state == c.recordState && r[k].triggeredBy == Some(MbsModuleStateChange(change))
    decreases |actions|
  {
    if actions == [] then []
    else
      var head := actions[0];
      var first := if head.Dispatch? && head.returned.Some?
                   then [NewRecord(c, change, head.name, head.returned.value)] else [];
      first + RecordsOf(c, change, actions[1..])
  }

  /** Running the cascade over one more dependent extends the trace by
      that dependent's step: the loop form of `Run`. */
  lemma {:induction false} RunExtend(c: Collaborators, change: ModuleStateChange, deps: seq<Dependent>, d: Dependent)
    ensures Run(c, change, deps + [d]) == Run(c, change, deps).Then(Step(c, change, d))
    decreases |deps|
  {
    if deps == [] {
      assert [d][1..] == [];
      assert ([] + [d])[0] == d;
    } else {
      assert (deps + [d])[0] == deps[0];
      assert (deps + [d])[1..] == deps[1..] + [d];
      RunExtend(c, change, deps[1..], d);
      var s0 := Step(c, change, deps[0]);
      var mid := Run(c, change, deps[1..]);
      var s1 := Step(c, change, d);
      assert s0.actions + (mid.actions + s1.actions) == (s0.actions + mid.actions) + s1.actions;
      assert s0.created + (mid.created + s1.created) == (s0.created + mid.created) + s1.created;
    }
  }

  /** Whether a request is about dependent `d`: a bump of its repo on its
      version branch, or a dispatch of its name and version. */
  predicate Concerns(a: Action, d: Dependent) {
    match a
    case Query(_, _, _) => false
    case Bump(_, repo, branch, _, _) => repo == d.name && branch == d.version
    case Dispatch(name, version, _, _) => name == d.name && version == d.version
  }
}
