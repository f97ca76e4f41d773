# Module-state-change handler of freshmaker, modelled in Dafny

Freshmaker is a rebuild-orchestration service. When the module build
service (MBS) reports that a module build changed state, the
`MBSModuleStateChangeHandler` does two things:

1. **Reconciliation.** It looks up the tracked `ArtifactBuild` rows of
   module type carrying the event's build id. Two or more rows are a fatal
   data-integrity error. With exactly one, the MBS state is mapped onto
   it: `ready` becomes `done`, `failed` becomes `failed`, and any other
   state leaves the row alone. With none, the step is skipped.
2. **Cascade.** Only when the event says `ready`, it asks the dependency
   index (PDC) for the active modules that build-depend on the event's
   module and stream. For each dependent in order:
   - it asks the whitelist/blacklist policy, and a rejected dependent is
     skipped;
   - an accepted dependent's distgit repo is bumped in the `modules`
     namespace on the branch named by its version, with the message
     `Bump to rebuild because of <module> update`;
   - a rebuild is dispatched at the revision the bump returned;
   - when the dispatch returns a build id, a new module build is tracked,
     linked to the event.

The handler returns an empty list of follow-up events.

The model is functional. The store is a sequence of `ArtifactBuild`
values. The collaborators are total functions held in a `Collaborators`
value:
- the dependency query;
- the policy `allow_build`;
- `bump_distgit_repo`;
- `build_module`;
- the state `record_build` gives a new row.

`Handler.Handle` returns either `DuplicateBuild(id)` or an `Outcome`. The
`Outcome` holds the new store, the ordered log of external requests
(the query, each bump with the revision it returned, each dispatch
with its answer), and the follow-up events.
`Handler.HandleLoop` follows the source's imperative shape (lookup,
in-place update, one `for` pass) and is proved equal to `Handle`.

Files:
- `wrappers.dfy`: `Option` and `Result`.
- `model.dfy`: events, states, tracked builds, dependents, actions and collaborators.
- `reconciliation.dfy`: the lookup and the state mapping.
- `cascade.dfy`: the policy filter and the bump/dispatch/record steps.
- `handler.dfy`: `CanHandle`, `Handle` and the loop form.
- `properties.dfy`: the lemmas about all of the above.

Two consequences of following `handle` closely:
- The dependents carry only a name and a version, because `handle` reads
  only `variant_name` and `variant_version`.
- A failing bump or dispatch is not caught per dependent. It would
  propagate out of `handle` (see Left out).

## Model

| member | source | states |
|---|---|---|
| Handler.CanHandle | freshmaker/handlers/mbs/module_state_change.py:34-38 | true exactly for module-state-change events, false for every other event kind |
| Reconciliation.MatchIndices | freshmaker/handlers/mbs/module_state_change.py:53-54 | the positions found are exactly, in ascending order, the tracked builds with the event's build id and module type |
| Reconciliation.Reconcile | freshmaker/handlers/mbs/module_state_change.py:53-65 | fails iff more than one build matches; on success keeps the store's length and every build the event does not refer to |
| Reconciliation.DuplicateMatches | freshmaker/handlers/mbs/module_state_change.py:53-56 | the lookup finds more than one build iff two distinct tracked builds carry the event's build id and module type |
| Reconciliation.OnlyMatchIndex | freshmaker/handlers/mbs/module_state_change.py:53-58 | when exactly one build has the key, the lookup yields exactly that build |
| Cascade.Accepted | freshmaker/handlers/mbs/module_state_change.py:77-83 | a dependent is kept iff the query returned it and the policy, asked with the event, type module, name and version, allows it |
| Cascade.AcceptedExtend | freshmaker/handlers/mbs/module_state_change.py:77-83 | the filter keeps the query's order: one more dependent at the end is appended to the accepted ones exactly when the policy allows it |
| Cascade.RecordsOf | freshmaker/handlers/mbs/module_state_change.py:87-89 | every build recorded from a request log is module-typed, in the recorder's initial state, and linked to the triggering event |
| Handler.HandleLoop | freshmaker/handlers/mbs/module_state_change.py:40-91 | the source's imperative lookup, update and loop compute the same outcome as the functional handler |
| Properties.RunShape | freshmaker/handlers/mbs/module_state_change.py:77-87 | the cascade's log is, per accepted dependent in the given order, its bump followed by its dispatch at the bumped revision, and nothing else |
| Properties.RunRecordsFollowLog | freshmaker/handlers/mbs/module_state_change.py:87-89 | the cascade records one build per dispatch that returned an id, in log order, and none for a dispatch that returned none |
| Properties.RunTouchesExactlyAccepted | freshmaker/handlers/mbs/module_state_change.py:77-89 | some request of the cascade concerns a dependent iff it was returned and allowed; an allowed one gets both a bump and a dispatch |
| Properties.ReconcileIdempotent | freshmaker/handlers/mbs/module_state_change.py:57-65 | reconciling the reconciled store again with the same event changes nothing |
| Properties.HandleFailsOnDuplicate | freshmaker/handlers/mbs/module_state_change.py:53-56 | handling fails iff two tracked module builds share the event's build id, and the error names that id (no store or request results) |
| Properties.HandleUpdatesUniqueMatch | freshmaker/handlers/mbs/module_state_change.py:57-64 | with exactly one match, ready sets it to done, failed to failed, any other state keeps it; its other fields and all other builds are kept |
| Properties.HandleKeepsStoreWithoutMatch | freshmaker/handlers/mbs/module_state_change.py:53-57 | with no match, handling succeeds and every existing build is kept as it was |
| Properties.HandleFrame | freshmaker/handlers/mbs/module_state_change.py:53-91 | on success: no follow-up events, builds the event does not refer to are kept, only module builds linked to the event are appended, and a non-ready event issues no request and appends nothing |
| Properties.HandleCascadesOnReady | freshmaker/handlers/mbs/module_state_change.py:68-89 | a ready event first queries (module, stream, active), then for each accepted dependent in order bumps ("modules", name, version, message) and dispatches at the revision recorded for that bump in the log; the appended builds are exactly those whose dispatch returned an id |
| Properties.HandleTouchesExactlyAccepted | freshmaker/handlers/mbs/module_state_change.py:68-89 | a dependent is bumped or dispatched iff the event is ready, the query returned it and the policy allows it |
| Properties.HandleRedeliveryKeepsState | freshmaker/handlers/mbs/module_state_change.py:57-65 | delivering the same event again keeps the reconciled build as the first delivery left it, whenever the second delivery succeeds |

## Left out

- The database session, its query mechanics and the commit at line 65. They are persistence plumbing; the store is an immutable sequence.
- The PDC client and `get_latest_modules`. They are I/O against an external service, so the dependency query is an abstract function. The model records that it was called with the event's module, its stream and `active` set to true.
- The bodies of `utils.bump_distgit_repo`, `allow_build`, `build_module` and `record_build`. They are not part of this model and perform git, network and MBS calls. They are abstract total functions. `record_build` is modelled only as appending a module-typed build linked to the event, with an abstract initial state.
- Collaborators are deterministic in their arguments, unlike the real bump, which makes a new commit on every call. A dependent listed twice by the query therefore gets the same revision and the same dispatch answer both times. If that answer is a build id, two tracked builds with that id are appended, and any later event for that id fails as a duplicate. Answers that vary per call are not modelled.
- Exceptions raised by the collaborators (network, auth or merge failures). The source does not catch them, so one would abort `handle` after the rows already recorded. The collaborators are modelled as total, and that abort path is not modelled.
- The numeric values of the MBS and internal build states and artifact types. These constants are defined outside this file, so each is an enum with an "other" case carrying a code.
- Logging (lines 60, 69-70 and 81-82) and configuration (`conf`).
- Events of kinds other than module state change. Their contents are irrelevant here, so they are a single opaque variant.
- Concurrency across events. The handler itself is sequential.
- Properties.HandleRedeliveryKeepsState: the claim is limited to the reconciled build. A second delivery of a `ready` event can fail as a duplicate when a dispatch in the first delivery returned the event's own build id, so the full handler is not idempotent.
