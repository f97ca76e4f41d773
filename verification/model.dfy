/**
 * The entities the module-state-change handler works with: the inbound
 * events, the tracked artifact builds, the dependents returned by the
 * dependency index, the side effects the handler requests, and the
 * collaborators it calls.
 */
module Model {
  import opened Wrappers

  /** Build identifier assigned by the module build service. */
  type BuildId = int

  /** Revision identifier returned by a distgit bump. */
  type Revision = string

  /** External build states reported by the module build service. Only
      `ready` and `failed` are distinguished by the handler; every other
      state is carried by its numeric code. */
  datatype MbsState = MbsReady | MbsFailed | MbsOther(code: int)

  /** Internal states of a tracked build. Only `done` and `failed` are
      written by the handler; the others are carried by their code. */
  datatype BuildState = Done | Failed | StateOther(code: int)

  /** Artifact kinds a tracked build can have. */
  datatype ArtifactType = Module | TypeOther(code: int)

  /** Payload of the module-state-change event. */
  datatype ModuleStateChange = ModuleStateChange(
    moduleName: string,
    stream: string,
    buildId: BuildId,
    state: MbsState)

  /** The events the dispatcher routes among handlers. Events of other
      kinds are not inspected by this handler, so they are kept opaque. */
  datatype Event =
    | MbsModuleStateChange(change: ModuleStateChange)
    | OtherEvent(kind: string)

  /** A persisted tracked build, optionally linked to the event that
      caused it to be dispatched. */
  datatype ArtifactBuild = ArtifactBuild(
    name: string,
    atype: ArtifactType,
    buildId: BuildId,
    state: BuildState,
    triggeredBy: Option<Event>)

  /** The build-tracking store: all tracked builds, in insertion order. */
  type Store = seq<ArtifactBuild>

  /** A module that declares a build dependency on the event's module. */
  datatype Dependent = Dependent(name: string, version: string)

  /** The external requests the handler issues, in the order issued. */
  datatype Action =
    | Query(depName: string, depStream: string, activeOnly: bool)
    | Bump(namespace: string, repo: string, branch: string, message: string, revision: Revision)
    | Dispatch(name: string, version: string, rev: Revision, returned: Option<BuildId>)

  /** Why handling aborted. */
  datatype Error = DuplicateBuild(buildId: BuildId)

  /**
   * The handler's collaborators, each a total function:
   * - `dependents(name, stream, activeOnly)`: the dependency index query;
   * - `allowBuild(event, type, name, version)`: the whitelist/blacklist policy;
   * - `bumpRepo(namespace, repo, branch, message)`: the distgit bump, giving a revision;
   * - `buildModule(name, version, rev)`: the rebuild dispatch, giving a build id or none;
   * - `recordState`: the state the build recorder gives a freshly tracked build.
   */
  datatype Collaborators = Collaborators(
    dependents: (string, string, bool) -> seq<Dependent>,
    allowBuild: (Event, ArtifactType, string, string) -> bool,
    bumpRepo: (string, string, string, string) -> Revision,
    buildModule: (string, string, Revision) -> Option<BuildId>,
    recordState: BuildState)

  /** What a successful `handle` produces: the store afterwards, the
      external requests in order, and the follow-up events it emits. */
  datatype Outcome = Outcome(store: Store, actions: seq<Action>, followUps: seq<Event>)
}
