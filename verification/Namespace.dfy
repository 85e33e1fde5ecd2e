/** The stored state of one namespace and, operation by operation, the state each request
    leaves behind. The methods in the service and facade modules are proved to compute
    these transitions; Consistency.dfy proves what every run of them keeps. */
module Namespace {
  import opened Collections
  import opened Model
  import opened AppLists

  /** `labelled` are the configs and secrets that are cleaned up with a system app that mounts them:
      those with the system label, except registry secrets. */
  datatype State = State(
    matches: Matcher,
    apps: map<string, App>,
    nodes: map<string, Labels>,
    shadows: map<string, Option<Desire>>,
    resources: map<Key, string>,
    labelled: set<Key>,
    crons: map<string, string>,
    placed: set<(string, string)>,
    uses: set<(string, Key)>)

  ghost function Empty(matches: Matcher): State {
    State(matches, map[], map[], map[], map[], {}, map[], {}, {})
  }

  // ----- relations kept by the index service -----

  ghost function WithRow<A(!new), B(!new)>(rel: set<(A, B)>, a: A, bs: set<B>): set<(A, B)> {
    (set p | p in rel && p.0 != a) + (set b | b in bs :: (a, b))
  }

  ghost function WithColumn<A(!new), B(!new)>(rel: set<(A, B)>, b: B, as_: set<A>): set<(A, B)> {
    (set p | p in rel && p.1 != b) + (set a | a in as_ :: (a, b))
  }

  // ----- volumes -----

  function VolumeKeys(v: Volume): set<Key> {
    (if v.config.Some? then {Key(Config, v.config.value.name)} else {}) +
    (if v.secret.Some? then {Key(Secret, v.secret.value.name)} else {})
  }

  function Keys(vs: seq<Volume>): set<Key> {
    if vs == [] then {} else Keys(vs[..|vs| - 1]) + VolumeKeys(vs[|vs| - 1])
  }

  function LatestVolume(v: Volume, resources: map<Key, string>): Volume
    requires VolumeKeys(v) <= resources.Keys
  {
    v.(config := if v.config.None? then None
                 else Some(Ref(v.config.value.name, resources[Key(Config, v.config.value.name)])),
       secret := if v.secret.None? then None
                 else Some(Ref(v.secret.value.name, resources[Key(Secret, v.secret.value.name)])))
  }

  /** Every reference of every volume at the version the resource has now. */
  function Latest(vs: seq<Volume>, resources: map<Key, string>): (r: seq<Volume>)
    requires Keys(vs) <= resources.Keys
    ensures |r| == |vs|
  {
    if vs == [] then []
    else Latest(vs[..|vs| - 1], resources) + [LatestVolume(vs[|vs| - 1], resources)]
  }

  // ----- naming rules of an application -----

  ghost predicate VolumeNamesDistinct(app: App) {
    forall i, j | 0 <= i < j < |app.volumes| :: app.volumes[i].name != app.volumes[j].name
  }

  ghost predicate ServiceNamesDistinct(app: App) {
    forall i, j | 0 <= i < j < |app.services| :: app.services[i].name != app.services[j].name
  }

  ghost predicate Mounted(app: App, mount: string) {
    exists k :: 0 <= k < |app.volumes| && app.volumes[k].name == mount
  }

  ghost predicate MountsResolve(app: App) {
    forall i, j | 0 <= i < |app.services| && 0 <= j < |app.services[i].mounts| ::
      Mounted(app, app.services[i].mounts[j])
  }

  ghost predicate ValidNames(app: App) {
    VolumeNamesDistinct(app) && ServiceNamesDistinct(app) && MountsResolve(app)
  }

  // ----- placement -----

  predicate Selects(matches: Matcher, selector: string, labels: Labels) {
    selector != "" && matches(selector, labels)
  }

  /** The nodes a selector reaches. */
  ghost function Reached(m: Matcher, nodes: map<string, Labels>, selector: string): set<string> {
    set n | n in nodes && Selects(m, selector, nodes[n])
  }

  datatype Edit = Refresh | Remove

  function Edited(d: Option<Desire>, app: App, edit: Edit): Option<Desire> {
    match edit
    case Refresh =>
      var d0 := if d.Some? then d.value else map[];
      Some(SetAppInfos(d0, app.system, Upsert(AppInfos(d0, app.system), AppInfo(app.name, app.version))))
    case Remove =>
      if d.None? then None
      else Some(SetAppInfos(d.value, app.system, Without(AppInfos(d.value, app.system), app.name)))
  }

  ghost function Patched(shadows: map<string, Option<Desire>>, targets: set<string>, app: App, edit: Edit)
    : map<string, Option<Desire>>
  {
    map n | n in shadows :: if n in targets then Edited(shadows[n], app, edit) else shadows[n]
  }

  /** The desires of all nodes the app selects, brought to the app's version. */
  ghost function VersionPushed(s: State, app: App): State {
    s.(shadows := Patched(s.shadows, Reached(s.matches, s.nodes, app.selector), app, Refresh))
  }

  ghost function Deployed(s: State, app: App): State {
    VersionPushed(s, app).(placed := WithRow(s.placed, app.name, Reached(s.matches, s.nodes, app.selector)))
  }

  ghost function Withdrawn(s: State, app: App): State {
    s.(shadows := Patched(s.shadows, Reached(s.matches, s.nodes, app.selector), app, Remove),
       placed := WithRow(s.placed, app.name, {}))
  }

  /** Taken off the nodes of the old selector when that changed, put on those of the new one. */
  ghost function Redeployed(s: State, stored: App, row: App): State {
    Deployed(if stored.selector != row.selector then Withdrawn(s, stored) else s, row)
  }

  // ----- applications -----

  datatype Step = Step(state: State, outcome: Outcome)

  /** The type of a service is not compared, and probes are compared by address: two sides never share one. */
  predicate EqualService(a: Service, b: Service) {
    a == b.(settings := b.settings.(workload := a.settings.workload)) && !a.probed
  }

  predicate EqualServices(a: seq<Service>, b: seq<Service>) {
    |a| == |b| && forall i | 0 <= i < |a| :: EqualService(a[i], b[i])
  }

  predicate EqualApp(a: App, b: App) {
    && a.selector == b.selector && a.modeLabel == b.modeLabel && a.settings == b.settings && a.volumes == b.volumes
    && EqualServices(a.services, b.services) && EqualServices(a.inits, b.inits)
    && a.cron == b.cron && a.rest == b.rest
  }

  /** What an update is about: references at their latest versions, and the version kept when nothing the
      comparison looks at has changed. */
  function Revised(app: App, stored: App, resources: map<Key, string>, version: string): App
    requires Keys(app.volumes) <= resources.Keys
  {
    var app' := app.(volumes := Latest(app.volumes, resources));
    app'.(version := if EqualApp(app', stored) then stored.version else version)
  }

  /** What the stored row becomes: it is not written when nothing compared has changed, and the system flag
      and the mode are never written. */
  function Saved(row: App, stored: App): App {
    if EqualApp(row, stored) then stored else row.(system := stored.system, mode := stored.mode)
  }

  ghost predicate CanStore(s: State, app: App) {
    ValidNames(app) && Keys(app.volumes) <= s.resources.Keys
  }

  ghost function StoreError(s: State, app: App): Error
    requires !CanStore(s, app)
  {
    if !ValidNames(app) then InvalidNames else ResourceMissing
  }

  ghost function RowCreated(s: State, app: App, version: string): State
    requires Keys(app.volumes) <= s.resources.Keys
  {
    s.(apps := s.apps[app.name := app.(volumes := Latest(app.volumes, s.resources), version := version)],
       uses := WithRow(s.uses, app.name, Keys(app.volumes)))
  }

  ghost function RowUpdated(s: State, app: App, version: string): State
    requires app.name in s.apps && Keys(app.volumes) <= s.resources.Keys
  {
    var stored := s.apps[app.name];
    s.(apps := s.apps[app.name := Saved(Revised(app, stored, s.resources, version), stored)],
       uses := WithRow(s.uses, app.name, Keys(app.volumes)))
  }

  ghost function RowDeleted(s: State, name: string): State {
    s.(apps := s.apps - {name}, uses := WithRow(s.uses, name, {}))
  }

  function OnTop(app: App, base: Option<App>): App {
    if base.None? then app
    else app.(volumes := base.value.volumes + app.volumes, services := base.value.services + app.services)
  }

  /** A waiting app is stored without its selector. */
  function Parked(app: App): App {
    if app.cron.CronWait? then app.(selector := "") else app
  }

  ghost function CronCreated(s: State, app: App): State {
    if app.cron.CronWait? then s.(crons := s.crons[app.name := app.selector]) else s
  }

  /** Creation once the request has passed the checks made before the facade is called. */
  ghost function AppSubmitted(s: State, base: Option<App>, app: App, version: string): Step {
    var row := OnTop(Parked(app), base);
    if app.cron.CronWait? && app.name in s.crons then Step(s, Fail(CronConflict))
    else if !CanStore(s, row) then Step(CronCreated(s, app), Fail(StoreError(s, row)))
    else if app.name in s.apps then Step(CronCreated(s, app), Fail(NameInUse))
    else Step(AppAdded(CronCreated(s, app), row, version), Pass)
  }

  ghost function BaseApp(s: State, base: Option<string>): Option<App>
    requires base.Some? ==> base.value in s.apps
  {
    if base.Some? then Some(s.apps[base.value]) else None
  }

  /** The existence of what the request mounts is checked first, before anything is written. */
  ghost function AppCreated(s: State, base: Option<string>, app: App, version: string): Step {
    if !(Keys(app.volumes) <= s.resources.Keys) then Step(s, Fail(ResourceMissing))
    else if app.name in s.apps then Step(s, Fail(HasBeenUsed))
    else if base.Some? && base.value !in s.apps then Step(s, Fail(NotFound))
    else AppSubmitted(s, BaseApp(s, base), app, version)
  }

  ghost function AppAdded(s: State, app: App, version: string): State
    requires Keys(app.volumes) <= s.resources.Keys
  {
    var s1 := RowCreated(s, app, version);
    Deployed(s1, s1.apps[app.name])
  }

  predicate CronMayBecome(stored: CronStatus, asked: CronStatus) {
    stored == asked || (stored.CronWait? && asked.CronNotSet?)
  }

  ghost function CronRevised(s: State, stored: App, app: App): State {
    if app.cron.CronWait? then
      (if app.name in s.crons then s.(crons := s.crons[app.name := app.selector]) else s)
    else if stored.cron.CronWait? && app.cron.CronNotSet? then s.(crons := s.crons - {app.name})
    else s
  }

  /** The update once the request has passed the checks made before the facade is called. */
  ghost function AppResubmitted(s: State, app: App, version: string): Step
    requires app.name in s.apps
  {
    if !CanStore(s, Parked(app))
    then Step(CronRevised(s, s.apps[app.name], app), Fail(StoreError(s, Parked(app))))
    else Step(AppReplaced(CronRevised(s, s.apps[app.name], app), Parked(app), version), Pass)
  }

  ghost function AppUpdated(s: State, app: App, version: string): Step {
    if !(Keys(app.volumes) <= s.resources.Keys) then Step(s, Fail(ResourceMissing))
    else if app.name !in s.apps then Step(s, Fail(NotFound))
    else if !CronMayBecome(s.apps[app.name].cron, app.cron) then Step(s, Fail(CronConflict))
    else AppResubmitted(s, app, version)
  }

  ghost function AppReplaced(s: State, app: App, version: string): State
    requires app.name in s.apps && Keys(app.volumes) <= s.resources.Keys
  {
    Redeployed(RowUpdated(s, app, version), s.apps[app.name], Revised(app, s.apps[app.name], s.resources, version))
  }

  const RESERVED_PREFIX := "baetyl-"

  ghost predicate MayDelete(s: State, name: string) {
    RESERVED_PREFIX <= name ==> forall p | p in s.placed :: p.0 != name
  }

  ghost function AppDeleted(s: State, name: string): Step {
    if name !in s.apps then Step(s, Pass)
    else if !MayDelete(s, name) then Step(s, Fail(ReferencedByNode))
    else
      var stored := s.apps[name];
      var s1 := if stored.cron.CronWait? then s.(crons := s.crons - {name}) else s;
      Step(Withdrawn(RowDeleted(s1, name), stored), Pass)
  }

  /** The selector shown to the user: the parked one while the app waits. */
  ghost function ShownSelector(apps: map<string, App>, crons: map<string, string>, name: string): string
    requires name in apps
  {
    if apps[name].cron.CronWait? && name in crons then crons[name] else apps[name].selector
  }

  // ----- configs and secrets -----

  ghost function Marked(labelled: set<Key>, key: Key, mark: bool): set<Key> {
    if mark then labelled + {key} else labelled - {key}
  }

  ghost function ResourceStored(s: State, key: Key, version: string, mark: bool): State {
    s.(resources := s.resources[key := version], labelled := Marked(s.labelled, key, mark))
  }

  ghost function ResourceCreated(s: State, key: Key, version: string, mark: bool): Step {
    if key in s.resources then Step(s, Fail(NameInUse))
    else Step(ResourceStored(s, key, version, mark), Pass)
  }

  ghost function Users(s: State, key: Key): set<string> {
    set p | p in s.uses && p.1 == key :: p.0
  }

  ghost function ResourceDeleted(s: State, key: Key): Step {
    if key !in s.resources then Step(s, Pass)
    else if Users(s, key) != {} then Step(s, Fail(HasBeenUsed))
    else Step(s.(resources := s.resources - {key}), Pass)
  }

  predicate Outdated(r: Option<Ref>, name: string, version: string) {
    r.Some? && r.value.name == name && Above(version, r.value.version)
  }

  predicate VolumeOutdated(v: Volume, key: Key, version: string) {
    match key.kind
    case Config => Outdated(v.config, key.name, version)
    case Secret => Outdated(v.secret, key.name, version)
  }

  function VolumeBumped(v: Volume, key: Key, version: string): Volume {
    if !VolumeOutdated(v, key, version) then v
    else match key.kind
      case Config => v.(config := Some(Ref(key.name, version)))
      case Secret => v.(secret := Some(Ref(key.name, version)))
  }

  function Bumped(vs: seq<Volume>, key: Key, version: string): (r: seq<Volume>)
    ensures |r| == |vs|
  {
    if vs == [] then []
    else Bumped(vs[..|vs| - 1], key, version) + [VolumeBumped(vs[|vs| - 1], key, version)]
  }

  ghost predicate NeedsUpdate(app: App, key: Key, version: string) {
    exists i :: 0 <= i < |app.volumes| && VolumeOutdated(app.volumes[i], key, version)
  }

  /** The app is stored again and its nodes are told; its selector does not change here. */
  ghost function RowPushed(s: State, app: App, version: string): State
    requires app.name in s.apps && Keys(app.volumes) <= s.resources.Keys
  {
    VersionPushed(RowUpdated(s, app, version), Revised(app, s.apps[app.name], s.resources, version))
  }

  function BumpedApp(app: App, key: Key, version: string): App {
    app.(volumes := Bumped(app.volumes, key, version))
  }

  /** One turn of the propagation loop. */
  ghost function PropagatedTo(s: State, key: Key, version: string, name: string, gen: string -> string): Step {
    if name !in s.apps || !NeedsUpdate(s.apps[name], key, version) then Step(s, Pass)
    else
      var app := BumpedApp(s.apps[name], key, version);
      if !CanStore(s, app) then Step(s, Fail(StoreError(s, app)))
      else if app.name !in s.apps then Step(s, Fail(NotFound))
      else Step(RowPushed(s, app, gen(name)), Pass)
  }

  /** The loop over the apps the index lists; the first failure ends it and nothing is undone. */
  ghost function Propagated(s: State, key: Key, version: string, names: seq<string>, gen: string -> string): Step
  {
    if names == [] then Step(s, Pass)
    else
      var before := Propagated(s, key, version, names[..|names| - 1], gen);
      if before.outcome.Fail? then before
      else PropagatedTo(before.state, key, version, names[|names| - 1], gen)
  }

  /** A system config keeps its labels; a secret takes those of the request. */
  ghost predicate LabelsKept(s: State, key: Key, mark: bool) {
    key.kind.Config? && key in s.labelled ==> mark
  }

  ghost function ResourceUpdated(s: State, key: Key, version: string, mark: bool,
                                 names: seq<string>, gen: string -> string): Step
  {
    if key !in s.resources then Step(s, Fail(NotFound))
    else if !LabelsKept(s, key, mark) then Step(s, Fail(LabelsFixed))
    else Propagated(ResourceStored(s, key, version, mark), key, version, names, gen)
  }

  /** Certificates and registries are secrets; editing one does not look for apps that mount it. */
  ghost function SecretEdited(s: State, name: string, version: string, mark: bool): Step {
    if Key(Secret, name) !in s.resources then Step(s, Fail(NotFound))
    else Step(ResourceStored(s, Key(Secret, name), version, mark), Pass)
  }

  // ----- nodes -----

  /** The rescan: entries of all apps that select the labels, in listing order. */
  function Rematched(s: State, order: seq<string>, labels: Labels, system: bool): seq<AppInfo> {
    if order == [] then []
    else
      var rest := Rematched(s, order[..|order| - 1], labels, system);
      var name := order[|order| - 1];
      if name in s.apps && s.apps[name].system == system && Selects(s.matches, s.apps[name].selector, labels)
      then rest + [AppInfo(s.apps[name].name, s.apps[name].version)] else rest
  }

  function RematchedDesire(s: State, order: seq<string>, labels: Labels): Desire {
    map[APPS := Infos(Rematched(s, order, labels, false)), SYSAPPS := Infos(Rematched(s, order, labels, true))]
  }

  lemma RematchIgnoresNodes(s: State, s': State, order: seq<string>, labels: Labels)
    requires s'.matches == s.matches && s'.apps == s.apps
    ensures RematchedDesire(s', order, labels) == RematchedDesire(s, order, labels)
    ensures forall system :: Rematched(s', order, labels, system) == Rematched(s, order, labels, system)
  {
    if order != [] { RematchIgnoresNodes(s, s', order[..|order| - 1], labels); }
  }

  ghost function Selecting(s: State, labels: Labels): set<string> {
    set a | a in s.apps && Selects(s.matches, s.apps[a].selector, labels) :: s.apps[a].name
  }

  /** Apps generated for a new node: rows only, no desire is touched. */
  ghost function RowsGenerated(s: State, gens: seq<App>): Step {
    if gens == [] then Step(s, Pass)
    else
      var before := RowsGenerated(s, gens[..|gens| - 1]);
      var app := gens[|gens| - 1];
      if before.outcome.Fail? then before
      else if !(Keys(app.volumes) <= before.state.resources.Keys) then Step(before.state, Fail(ResourceMissing))
      else Step(RowCreated(before.state, app, app.version), Pass)
  }

  ghost function NodePlaced(s: State, name: string, labels: Labels, desire: Desire): State {
    s.(shadows := s.shadows[name := Some(desire)],
       placed := WithColumn(s.placed, name, Selecting(s, labels)))
  }

  /** Configs and secrets generated from templates, and which of them are labelled. */
  datatype Made = Made(versions: map<Key, string>, marks: set<Key>)

  ghost function NodeStarted(s: State, name: string, labels: Labels, made: Made): State {
    s.(nodes := s.nodes[name := labels], resources := s.resources + made.versions,
       labelled := s.labelled - made.versions.Keys + made.marks)
  }

  ghost function Generated(s: State, name: string, labels: Labels, made: Made, gens: seq<App>): Step {
    RowsGenerated(NodeStarted(s, name, labels, made), gens)
  }

  /** A failed creation is rolled back as a whole. */
  ghost function NodeCreated(s: State, name: string, labels: Labels, made: Made,
                             gens: seq<App>, order: seq<string>): Step
  {
    if name in s.nodes then Step(s, Fail(NameInUse))
    else
      var r := Generated(s, name, labels, made, gens);
      if r.outcome.Fail? then Step(s, r.outcome)
      else if name in s.shadows then Step(s, Fail(NameInUse))
      else Step(NodePlaced(r.state, name, labels, RematchedDesire(r.state, order, labels)), Pass)
  }

  function Merged(d: Option<Desire>, desire: Desire): Desire {
    if d.None? then desire else d.value + desire
  }

  ghost function NodeUpdated(s: State, name: string, labels: Labels, order: seq<string>): Step {
    if name !in s.nodes then Step(s, Fail(NotFound))
    else
      var s1 := s.(nodes := s.nodes[name := labels]);
      if name !in s.shadows then Step(s1.(placed := WithColumn(s.placed, name, {})), Fail(NotFound))
      else Step(NodePlaced(s1, name, labels, Merged(s.shadows[name], RematchedDesire(s, order, labels))), Pass)
  }

  /** A volume of a deleted system app: its config goes if it is labelled, and then its secret too;
      a config that is missing or not labelled ends the cleaning of the volume. */
  function VolumeSwept(resources: map<Key, string>, labelled: set<Key>, v: Volume): map<Key, string> {
    var rest := if v.config.None? then resources else resources - {Key(Config, v.config.value.name)};
    if v.config.Some? && !Sweepable(resources, labelled, Key(Config, v.config.value.name)) then resources
    else if v.secret.Some? && Sweepable(rest, labelled, Key(Secret, v.secret.value.name))
    then rest - {Key(Secret, v.secret.value.name)} else rest
  }

  predicate Sweepable(resources: map<Key, string>, labelled: set<Key>, key: Key) {
    key in resources && key in labelled
  }

  function Swept(resources: map<Key, string>, labelled: set<Key>, vs: seq<Volume>): map<Key, string> {
    if vs == [] then resources
    else VolumeSwept(Swept(resources, labelled, vs[..|vs| - 1]), labelled, vs[|vs| - 1])
  }

  /** Apps that cannot be found are skipped. */
  ghost function SysAppsDeleted(s: State, names: seq<string>): State {
    if names == [] then s
    else
      var before, name := SysAppsDeleted(s, names[..|names| - 1]), names[|names| - 1];
      if name !in before.apps then before
      else
        var resources := Swept(before.resources, before.labelled, before.apps[name].volumes);
        RowDeleted(before.(resources := resources), name)
  }

  function Names(infos: seq<AppInfo>): seq<string> {
    seq(|infos|, i requires 0 <= i < |infos| => infos[i].name)
  }

  function SystemApps(s: State, name: string): seq<string> {
    if name in s.shadows && s.shadows[name].Some? then Names(AppInfos(s.shadows[name].value, true)) else []
  }

  /** The node goes with its shadow and index rows; then the system apps it desired are deleted. */
  ghost function NodeDeleted(s: State, name: string): Step {
    if name !in s.nodes then Step(s, Pass)
    else
      var sys := SystemApps(s, name);
      var s1 := s.(nodes := s.nodes - {name}, shadows := s.shadows - {name}, placed := WithColumn(s.placed, name, {}));
      var s2 := SysAppsDeleted(s1, sys);
      Step(s2.(placed := set p | p in s2.placed && p.0 !in Elements(sys)), Pass)
  }

  ghost function PropsSet(s: State, name: string, props: map<string, string>): Step {
    if name !in s.nodes || name !in s.shadows || s.shadows[name].None? then Step(s, Fail(NotFound))
    else Step(s.(shadows := s.shadows[name := Some(s.shadows[name].value[NODE_PROPS := Props(props)])]), Pass)
  }
}
