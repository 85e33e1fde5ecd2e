/** What users asked for, as a book of entries: apps without the versions of what they mount, labels, properties,
    resources. Every request the namespace accepts, refuses or half refuses is one entry in the book, and the
    derived tables play no part in it. */
module Ledger {
  import opened Collections
  import opened Model
  import opened AppLists
  import opened Namespace
  import opened Consistency
  import opened AppOperations
  import opened ResourceOperations
  import opened NodeOperations
  import opened Runs
  import opened RoundTrips
  import opened VolumeView

  // ----- entries -----

  /** The type of a service takes no part in comparisons. */
  function Untyped(service: Service): Service {
    service.(settings := service.settings.(workload := ""))
  }

  ghost function AllUntyped(services: seq<Service>): seq<Service> {
    seq(|services|, i requires 0 <= i < |services| => Untyped(services[i]))
  }

  ghost function AllSources(vs: seq<Volume>): seq<Volume> {
    seq(|vs|, i requires 0 <= i < |vs| => Sources(vs[i]))
  }

  /** An app as it was asked for. */
  ghost function Entry(app: App): App {
    app.(volumes := AllSources(app.volumes), services := AllUntyped(app.services), inits := AllUntyped(app.inits))
  }

  ghost function Entries(apps: Apps): Apps {
    map a | a in apps :: Entry(apps[a])
  }

  function DesiredProps(d: Option<Desire>): Option<Value> {
    if d.Some? && NODE_PROPS in d.value then Some(d.value[NODE_PROPS]) else None
  }

  ghost function PropsOf(shadows: Shadows): map<string, Option<Value>> {
    map n | n in shadows :: DesiredProps(shadows[n])
  }

  datatype Book = Book(
    apps: Apps, crons: map<string, string>, nodes: Nodes, props: map<string, Option<Value>>,
    resources: map<Key, string>, labelled: set<Key>)

  const BLANK := Book(map[], map[], map[], map[], map[], {})

  ghost function BookOf(s: State): Book {
    Book(Entries(s.apps), s.crons, s.nodes, PropsOf(s.shadows), s.resources, s.labelled * s.resources.Keys)
  }

  // ----- what a request enters -----

  /** The entry for an app created on top of another. */
  ghost function Asked(b: Book, base: Option<string>, app: App): App
    requires base.Some? ==> base.value in b.apps
  {
    var entry := Entry(app).(selector := if app.cron.CronWait? then "" else app.selector);
    if base.None? then entry
    else entry.(volumes := b.apps[base.value].volumes + entry.volumes,
                services := b.apps[base.value].services + entry.services)
  }

  /** The entry after an update: system flag and mode stay, and the version changes with anything else. */
  ghost function Amended(entry: App, app: App, version: string): App {
    var asked := Entry(app).(selector := if app.cron.CronWait? then "" else app.selector,
                             system := entry.system, mode := entry.mode, version := entry.version);
    if asked == entry && Unprobed(app) then entry else asked.(version := version)
  }

  ghost function Bumping(b: Book, key: Key, version: string, gen: string -> string): Apps
    requires key in b.resources
  {
    map a | a in b.apps ::
      if Above(version, b.resources[key]) && key in Keys(b.apps[a].volumes) then b.apps[a].(version := gen(a))
      else b.apps[a]
  }

  ghost function Entered(apps: Apps, gens: seq<App>): Apps {
    if gens == [] then apps
    else Entered(apps, gens[..|gens| - 1])[gens[|gens| - 1].name := Entry(gens[|gens| - 1])]
  }

  function MarkedAs(b: Book, key: Key, version: string, mark: bool): Book {
    b.(resources := b.resources[key := version], labelled := if mark then b.labelled + {key} else b.labelled - {key})
  }

  ghost predicate Mounting(b: Book, key: Key) {
    exists a :: a in b.apps && key in Keys(b.apps[a].volumes)
  }

  ghost predicate OnSomeNode(m: Matcher, b: Book, a: string)
    requires a in b.apps
  {
    exists n :: n in b.nodes && Selects(m, b.apps[a].selector, b.nodes[n])
  }

  ghost predicate AllMounted(gens: seq<App>, keys: set<Key>) {
    forall i | 0 <= i < |gens| :: Keys(gens[i].volumes) <= keys
  }

  /** An update or creation that gets as far as the cron table. */
  ghost predicate Creatable(b: Book, base: Option<string>, app: App) {
    && Keys(app.volumes) <= b.resources.Keys && app.name !in b.apps && (base.Some? ==> base.value in b.apps)
    && (app.cron.CronWait? ==> app.name !in b.crons)
  }

  ghost predicate Updatable(b: Book, app: App) {
    Keys(app.volumes) <= b.resources.Keys && app.name in b.apps && CronMayBecome(b.apps[app.name].cron, app.cron)
  }

  /** Which requests succeed. */
  ghost predicate Admits(m: Matcher, b: Book, e: Event) {
    match e
    case CreateApp(base, app, _) => Creatable(b, base, app) && ValidNames(Asked(b, base, app))
    case UpdateApp(app, _) => Updatable(b, app) && ValidNames(app)
    case DeleteApp(name) => name in b.apps && RESERVED_PREFIX <= name ==> !OnSomeNode(m, b, name)
    case CreateResource(key, _, _) => key !in b.resources
    case UpdateResource(key, _, mark, _, _) => key in b.resources && (key.kind.Config? && key in b.labelled ==> mark)
    case EditSecret(name, _, _) => Key(Secret, name) in b.resources
    case DeleteResource(key) => key in b.resources ==> !Mounting(b, key)
    case CreateNode(name, _, made, gens, _) =>
      name !in b.nodes && AllMounted(gens, b.resources.Keys + made.versions.Keys)
    case UpdateNode(name, _, _) => name in b.nodes
    case DeleteNode(_) => true
    case SetProps(name, _) => name in b.nodes
  }

  /** And what the others are told. */
  ghost function Reason(m: Matcher, b: Book, e: Event): Error
    requires !Admits(m, b, e)
  {
    match e
    case CreateApp(base, app, _) =>
      if !(Keys(app.volumes) <= b.resources.Keys) then ResourceMissing
      else if app.name in b.apps then HasBeenUsed
      else if base.Some? && base.value !in b.apps then NotFound
      else if app.cron.CronWait? && app.name in b.crons then CronConflict
      else InvalidNames
    case UpdateApp(app, _) =>
      if !(Keys(app.volumes) <= b.resources.Keys) then ResourceMissing
      else if app.name !in b.apps then NotFound
      else if !CronMayBecome(b.apps[app.name].cron, app.cron) then CronConflict
      else InvalidNames
    case DeleteApp(_) => ReferencedByNode
    case CreateResource(_, _, _) => NameInUse
    case UpdateResource(key, _, _, _, _) => if key in b.resources then LabelsFixed else NotFound
    case DeleteResource(_) => HasBeenUsed
    case CreateNode(name, _, _, _, _) => if name in b.nodes then NameInUse else ResourceMissing
    case _ => NotFound
  }

  ghost function Verdict(m: Matcher, b: Book, e: Event): Outcome {
    if Admits(m, b, e) then Pass else Fail(Reason(m, b, e))
  }

  /** A cron row is written before the app is, and stays if that fails. */
  ghost function CronsAfter(b: Book, e: Event): map<string, string> {
    match e
    case CreateApp(base, app, _) =>
      if Creatable(b, base, app) && app.cron.CronWait? then b.crons[app.name := app.selector] else b.crons
    case UpdateApp(app, _) =>
      if !Updatable(b, app) then b.crons
      else if app.cron.CronWait? then (if app.name in b.crons then b.crons[app.name := app.selector] else b.crons)
      else if b.apps[app.name].cron.CronWait? then b.crons - {app.name} else b.crons
    case DeleteApp(name) => if name in b.apps && b.apps[name].cron.CronWait? then b.crons - {name} else b.crons
    case _ => b.crons
  }

  /** The book after an accepted request other than the deletion of a node. */
  ghost function Posted(m: Matcher, b: Book, e: Event): Book
    requires Admits(m, b, e)
  {
    match e
    case CreateApp(base, app, version) => b.(apps := b.apps[app.name := Asked(b, base, app).(version := version)])
    case UpdateApp(app, version) => b.(apps := b.apps[app.name := Amended(b.apps[app.name], app, version)])
    case DeleteApp(name) => b.(apps := b.apps - {name})
    case CreateResource(key, version, mark) => MarkedAs(b, key, version, mark)
    case UpdateResource(key, version, mark, _, gen) =>
      MarkedAs(b, key, version, mark).(apps := Bumping(b, key, version, gen))
    case EditSecret(name, version, mark) => MarkedAs(b, Key(Secret, name), version, mark)
    case DeleteResource(key) => b.(resources := b.resources - {key}, labelled := b.labelled - {key})
    case CreateNode(name, labels, made, gens, _) =>
      var resources := b.resources + made.versions;
      b.(nodes := b.nodes[name := labels], props := b.props[name := None], apps := Entered(b.apps, gens),
         resources := resources, labelled := (b.labelled - made.versions.Keys + made.marks) * resources.Keys)
    case UpdateNode(name, labels, _) => b.(nodes := b.nodes[name := labels])
    case DeleteNode(_) => b
    case SetProps(name, props) => b.(props := b.props[name := Some(Props(props))])
  }

  ghost function MountsOf(apps: Apps, names: set<string>): set<Key> {
    set a, k | a in names && a in apps && k in Keys(apps[a].volumes) :: k
  }

  /** A node is struck with the system apps that select it; of what those mount, labelled resources go: all of
      them when no volume has two sources. */
  ghost predicate Struck(m: Matcher, b: Book, name: string, b': Book) {
    if name !in b.nodes then b' == b
    else
      var gone := set a | a in b.apps && b.apps[a].system && Selects(m, b.apps[a].selector, b.nodes[name]);
      && b'.nodes == b.nodes - {name} && b'.props == b.props - {name} && b'.apps == b.apps - gone
      && b'.crons == b.crons && b'.labelled == b.labelled * b'.resources.Keys && Submap(b.resources, b'.resources)
      && b.resources.Keys - b'.resources.Keys <= b.labelled * MountsOf(b.apps, gone)
      && ((forall a | a in gone :: SingleSource(b.apps[a].volumes)) ==>
            b'.resources == b.resources - b.labelled * MountsOf(b.apps, gone))
  }

  /** How a request changes the book. */
  ghost predicate Follows(m: Matcher, b: Book, e: Event, b': Book) {
    if e.DeleteNode? then Struck(m, b, e.name, b')
    else if Admits(m, b, e) then b' == Posted(m, b, e).(crons := CronsAfter(b, e))
    else b' == b.(crons := if e.DeleteApp? then b.crons else CronsAfter(b, e))
  }

  /** The namespace does to its own tables what the request does to the book. */
  ghost predicate Kept(s: State, e: Event) {
    && Next(s, e).outcome == Verdict(s.matches, BookOf(s), e)
    && Follows(s.matches, BookOf(s), e, BookOf(Next(s, e).state))
  }

  // ----- entries and rows -----

  lemma AllSourcesIff(vs: seq<Volume>, ws: seq<Volume>)
    ensures AllSources(vs) == AllSources(ws) <==> SameSources(vs, ws)
  {
    if AllSources(vs) == AllSources(ws) {
      forall i | 0 <= i < |vs| ensures Sources(vs[i]) == Sources(ws[i]) {
        assert AllSources(vs)[i] == AllSources(ws)[i];
      }
    }
  }

  lemma AllUntypedIff(a: seq<Service>, b: seq<Service>)
    ensures EqualServices(a, b) <==> AllUntyped(a) == AllUntyped(b) && NoProbes(a)
  {
    if AllUntyped(a) == AllUntyped(b) && NoProbes(a) {
      forall i | 0 <= i < |a| ensures EqualService(a[i], b[i]) {
        assert AllUntyped(a)[i] == AllUntyped(b)[i];
      }
    }
    if EqualServices(a, b) {
      forall i | 0 <= i < |a| ensures Untyped(a[i]) == Untyped(b[i]) && !a[i].probed {
        assert EqualService(a[i], b[i]);
      }
    }
  }

  /** Which resources a list names does not depend on versions, */
  lemma EntryKeys(vs: seq<Volume>)
    ensures Keys(AllSources(vs)) == Keys(vs)
  {
    assert SameSources(AllSources(vs), vs);
    SourcesKeys(AllSources(vs), vs);
  }

  lemma LatestSources(vs: seq<Volume>, resources: map<Key, string>)
    requires Keys(vs) <= resources.Keys
    ensures AllSources(Latest(vs, resources)) == AllSources(vs)
  {
    LatestIsCurrent(vs, resources);
    LatestSameIff(vs, Latest(vs, resources), resources);
    AllSourcesIff(vs, Latest(vs, resources));
  }

  /** and neither do names and mounts. */
  lemma EntryNames(app: App)
    ensures ValidNames(Entry(app)) <==> ValidNames(app)
  {
    if ValidNames(app) { SameNamesValid(app, Entry(app)); }
    if ValidNames(Entry(app)) { SameNamesValid(Entry(app), app); }
  }

  lemma EntriesWith(apps: Apps, a: string, row: App)
    ensures Entries(apps[a := row]) == Entries(apps)[a := Entry(row)]
  {
  }

  lemma EntriesWithout(apps: Apps, names: set<string>)
    ensures Entries(apps - names) == Entries(apps) - names
  {
  }

  lemma EditedProps(d: Option<Desire>, app: App, edit: Edit)
    ensures DesiredProps(Edited(d, app, edit)) == DesiredProps(d)
  {
  }

  lemma PatchedProps(shadows: Shadows, targets: set<string>, app: App, edit: Edit)
    ensures PropsOf(Patched(shadows, targets, app, edit)) == PropsOf(shadows)
  {
    forall n | n in shadows { EditedProps(shadows[n], app, edit); }
  }

  // ----- creating an app -----

  /** What is stored for a new app: the base's volumes and services come first, in order, and everything else
      is what was asked for, with the selector parked. */
  lemma CreatedEntry(s: State, base: Option<string>, app: App, version: string)
    requires Consistent(s) && AppCreated(s, base, app, version).outcome.Pass?
    ensures var s' := AppCreated(s, base, app, version).state;
            && (base.Some? ==> base.value in s.apps) && app.name in s'.apps
            && s'.apps == s.apps[app.name := s'.apps[app.name]]
            && Entry(s'.apps[app.name]) == Asked(BookOf(s), base, app).(version := version)
  {
    PassedCreateIs(s, base, app, version);
    var row := CreatedRow(s, base, app);
    LatestSources(row.volumes, s.resources);
    StackedEntry(s, base, app);
  }

  lemma StackedEntry(s: State, base: Option<string>, app: App)
    requires base.Some? ==> base.value in s.apps
    ensures Entry(CreatedRow(s, base, app)) == Asked(BookOf(s), base, app)
  {
    if base.Some? {
      var under := s.apps[base.value];
      SourcesJoin(under.volumes, app.volumes);
      UntypedJoin(under.services, app.services);
    }
  }

  lemma SourcesJoin(vs: seq<Volume>, ws: seq<Volume>)
    ensures AllSources(vs + ws) == AllSources(vs) + AllSources(ws)
  {
  }

  lemma UntypedJoin(a: seq<Service>, b: seq<Service>)
    ensures AllUntyped(a + b) == AllUntyped(a) + AllUntyped(b)
  {
  }

  /** Whether a creation goes through can be told from the book. */
  lemma CreationAdmitted(s: State, base: Option<string>, app: App, version: string)
    requires Consistent(s)
    ensures AppCreated(s, base, app, version).outcome
         == Verdict(s.matches, BookOf(s), CreateApp(base, app, version))
  {
    if Creatable(BookOf(s), base, app) {
      OnlyNamesStop(s, base, app);
      StackedEntry(s, base, app);
      EntryNames(CreatedRow(s, base, app));
    }
  }

  lemma CreationCrons(s: State, base: Option<string>, app: App, version: string)
    ensures AppCreated(s, base, app, version).state.crons ==
            if Creatable(BookOf(s), base, app) && app.cron.CronWait? then s.crons[app.name := app.selector] else s.crons
  {
    if AppCreated(s, base, app, version).outcome.Pass? {
      PassedCreateIs(s, base, app, version);
    }
  }

  /** What no creation of an app touches. */
  ghost predicate RestKept(s: State, s': State) {
    && s'.nodes == s.nodes && PropsOf(s'.shadows) == PropsOf(s.shadows)
    && s'.resources == s.resources && s'.labelled == s.labelled
  }

  lemma CreatedRest(s: State, base: Option<string>, app: App, version: string)
    ensures RestKept(s, AppCreated(s, base, app, version).state)
    ensures AppCreated(s, base, app, version).outcome.Fail? ==> AppCreated(s, base, app, version).state.apps == s.apps
  {
    if AppCreated(s, base, app, version).outcome.Pass? {
      PassedCreateIs(s, base, app, version);
      AddedRest(CronCreated(s, app), CreatedRow(s, base, app), version);
    } else {
      RefusedRest(s, base, app, version);
    }
  }

  lemma RefusedRest(s: State, base: Option<string>, app: App, version: string)
    requires AppCreated(s, base, app, version).outcome.Fail?
    ensures var s' := AppCreated(s, base, app, version).state;
            s' == s.(crons := s'.crons)
  {
  }

  lemma AddedRest(s: State, row: App, version: string)
    requires Keys(row.volumes) <= s.resources.Keys
    ensures RestKept(s, AppAdded(s, row, version))
  {
    var stored := row.(volumes := Latest(row.volumes, s.resources), version := version);
    PatchedProps(s.shadows, Reached(s.matches, s.nodes, row.selector), stored, Refresh);
  }

  lemma CreateAppKept(s: State, base: Option<string>, app: App, version: string)
    requires Consistent(s)
    ensures Kept(s, CreateApp(base, app, version))
  {
    CreationAdmitted(s, base, app, version);
    CreationCrons(s, base, app, version);
    CreatedRest(s, base, app, version);
    if AppCreated(s, base, app, version).outcome.Pass? {
      CreatedEntry(s, base, app, version);
      EntriesWith(s.apps, app.name, AppCreated(s, base, app, version).state.apps[app.name]);
    }
  }

  // ----- updating an app -----

  lemma ParkedEntry(app: App)
    ensures Entry(Parked(app)) == Entry(app).(selector := if app.cron.CronWait? then "" else app.selector)
  {
  }

  /** The comparison of two apps is equality of what was asked for, unless there is a probe. */
  lemma EqualAppIff(row: App, stored: App)
    requires row.name == stored.name
    requires AllSources(row.volumes) == AllSources(stored.volumes) <==> row.volumes == stored.volumes
    ensures EqualApp(row, stored) <==>
            && Entry(row).(system := stored.system, mode := stored.mode, version := stored.version) == Entry(stored)
            && Unprobed(row)
  {
    AllUntypedIff(row.services, stored.services);
    AllUntypedIff(row.inits, stored.inits);
  }

  lemma CurrentSourcesIff(vs: seq<Volume>, ws: seq<Volume>, resources: map<Key, string>)
    requires Keys(vs) <= resources.Keys && Current(ws, resources)
    ensures AllSources(vs) == AllSources(ws) <==> Latest(vs, resources) == ws
  {
    LatestSameIff(vs, ws, resources);
    AllSourcesIff(vs, ws);
  }

  lemma SavedEntry(s: State, app: App, version: string)
    requires Consistent(s) && app.name in s.apps && Keys(app.volumes) <= s.resources.Keys
    requires app.cron.CronWait? ==> app.selector == ""
    ensures var stored := s.apps[app.name];
            Entry(Saved(Revised(app, stored, s.resources, version), stored)) == Amended(Entry(stored), app, version)
  {
    var stored := s.apps[app.name];
    var row := app.(volumes := Latest(app.volumes, s.resources));
    assert RowValid(s.apps, app.name) && Current(stored.volumes, s.resources);
    LatestSources(app.volumes, s.resources);
    CurrentSourcesIff(app.volumes, stored.volumes, s.resources);
    EqualAppIff(row, stored);
    EqualAppIff(row.(version := version), stored);
    EqualAppIff(row.(version := stored.version), stored);
  }

  /** What an accepted update stores: everything asked for, the selector parked, with the stored flag and mode;
      the version is the new one exactly when any of it differs from what was stored or a service has a probe,
      and no other app changes. */
  lemma UpdatedEntry(s: State, app: App, version: string)
    requires Consistent(s) && UpdateAccepted(s, app)
    ensures var s' := AppUpdated(s, app, version).state;
            && app.name in s'.apps && s'.apps == s.apps[app.name := s'.apps[app.name]]
            && Entry(s'.apps[app.name]) == Amended(Entry(s.apps[app.name]), app, version)
  {
    AcceptedUpdateIs(s, app, version);
    var s1 := CronRevised(s, s.apps[app.name], app);
    OnlyCrons(s, s1);
    SavedEntry(s1, Parked(app), version);
    ParkedEntry(app);
    ReplacedApps(s1, Parked(app), version);
  }

  lemma ReplacedApps(s: State, app: App, version: string)
    requires app.name in s.apps && Keys(app.volumes) <= s.resources.Keys
    ensures var stored, s' := s.apps[app.name], AppReplaced(s, app, version);
            && s'.apps == s.apps[app.name := Saved(Revised(app, stored, s.resources, version), stored)]
            && s'.crons == s.crons && s'.nodes == s.nodes && s'.resources == s.resources && s'.labelled == s.labelled
  {
  }

  lemma ReplacedProps(s: State, app: App, version: string)
    requires app.name in s.apps && s.apps[app.name].name == app.name && Keys(app.volumes) <= s.resources.Keys
    ensures PropsOf(AppReplaced(s, app, version).shadows) == PropsOf(s.shadows)
  {
    var stored, row := s.apps[app.name], Revised(app, s.apps[app.name], s.resources, version);
    RedeployedParts(RowUpdated(s, app, version), stored, row);
    var from, to := Reached(s.matches, s.nodes, stored.selector), Reached(s.matches, s.nodes, row.selector);
    PatchedProps(s.shadows, from, stored, Remove);
    PatchedProps(s.shadows, to, row, Refresh);
    PatchedProps(Patched(s.shadows, from, stored, Remove), to, row, Refresh);
  }

  lemma UpdateAdmitted(s: State, app: App, version: string)
    ensures UpdateAccepted(s, app) <==> Admits(s.matches, BookOf(s), UpdateApp(app, version))
    ensures AppUpdated(s, app, version).outcome == Verdict(s.matches, BookOf(s), UpdateApp(app, version))
  {
    ParkedNames(app);
    if UpdateAccepted(s, app) { AcceptedUpdateIs(s, app, version); }
  }

  lemma UpdateCrons(s: State, app: App, version: string)
    ensures AppUpdated(s, app, version).state.crons == CronsAfter(BookOf(s), UpdateApp(app, version))
  {
    if UpdateAccepted(s, app) {
      AcceptedUpdateIs(s, app, version);
      ReplacedApps(CronRevised(s, s.apps[app.name], app), Parked(app), version);
    }
  }

  lemma UpdateAppKept(s: State, app: App, version: string)
    requires Consistent(s)
    ensures Kept(s, UpdateApp(app, version))
  {
    UpdateAdmitted(s, app, version);
    UpdateCrons(s, app, version);
    if UpdateAccepted(s, app) {
      UpdatedEntry(s, app, version);
      EntriesWith(s.apps, app.name, AppUpdated(s, app, version).state.apps[app.name]);
      AcceptedUpdateIs(s, app, version);
      assert RowValid(s.apps, app.name);
      var s1 := CronRevised(s, s.apps[app.name], app);
      ReplacedApps(s1, Parked(app), version);
      ReplacedProps(s1, Parked(app), version);
    } else {
      RefusedUpdateIs(s, app, version);
    }
  }

  // ----- deleting an app -----

  lemma DeletableIff(s: State, name: string)
    requires Consistent(s) && name in s.apps
    ensures MayDelete(s, name) <==> (RESERVED_PREFIX <= name ==> !OnSomeNode(s.matches, BookOf(s), name))
  {
    if n :| n in s.nodes && Selects(s.matches, s.apps[name].selector, s.nodes[n]) {
      assert (name, n) in s.placed;
    }
  }

  lemma StruckApp(s: State, name: string)
    requires name in s.apps && MayDelete(s, name)
    ensures AppDeleted(s, name).outcome.Pass?
    ensures BookOf(AppDeleted(s, name).state)
         == BookOf(s).(apps := Entries(s.apps) - {name},
                       crons := if s.apps[name].cron.CronWait? then s.crons - {name} else s.crons)
  {
    EntriesWithout(s.apps, {name});
    PatchedProps(s.shadows, Reached(s.matches, s.nodes, s.apps[name].selector), s.apps[name], Remove);
  }

  lemma UnknownAppKept(s: State, name: string)
    requires name !in s.apps
    ensures Kept(s, DeleteApp(name))
  {
    assert Entries(s.apps) - {name} == Entries(s.apps);
  }

  lemma KnownAppKept(s: State, name: string)
    requires name in s.apps
    requires MayDelete(s, name) <==> (RESERVED_PREFIX <= name ==> !OnSomeNode(s.matches, BookOf(s), name))
    ensures Kept(s, DeleteApp(name))
  {
    if MayDelete(s, name) { StruckApp(s, name); }
  }

  lemma DeleteAppKept(s: State, name: string)
    requires Consistent(s)
    ensures Kept(s, DeleteApp(name))
  {
    if name in s.apps {
      DeletableIff(s, name);
      KnownAppKept(s, name);
    } else {
      UnknownAppKept(s, name);
    }
  }

  // ----- resources -----

  lemma StoredKept(s: State, key: Key, version: string, mark: bool)
    ensures BookOf(ResourceStored(s, key, version, mark)) == MarkedAs(BookOf(s), key, version, mark)
  {
  }

  lemma MountingIff(s: State, key: Key)
    requires Consistent(s)
    ensures Mounting(BookOf(s), key) <==> Users(s, key) != {}
    ensures forall a | a in s.apps :: key in Keys(Entries(s.apps)[a].volumes) <==> a in Users(s, key)
  {
    UsedKeys(s, key);
    forall a | a in s.apps ensures Keys(Entries(s.apps)[a].volumes) == Keys(s.apps[a].volumes) {
      EntryKeys(s.apps[a].volumes);
    }
    if a :| a in Users(s, key) {
      assert a in BookOf(s).apps && key in Keys(BookOf(s).apps[a].volumes);
    }
  }

  lemma WithoutResource(s: State, key: Key)
    ensures BookOf(s.(resources := s.resources - {key}))
         == BookOf(s).(resources := s.resources - {key}, labelled := BookOf(s).labelled - {key})
    ensures key !in s.resources ==>
              s.resources - {key} == s.resources && BookOf(s).labelled - {key} == BookOf(s).labelled
  {
  }

  lemma DeleteResourceKept(s: State, key: Key)
    requires Consistent(s)
    ensures Kept(s, DeleteResource(key))
  {
    MountingIff(s, key);
    WithoutResource(s, key);
  }

  lemma {:induction false} PropagationProps(s: State, key: Key, version: string, names: seq<string>,
                                            gen: string -> string)
    ensures PropsOf(Propagated(s, key, version, names, gen).state.shadows) == PropsOf(s.shadows)
  {
    if names != [] {
      PropagationProps(s, key, version, names[..|names| - 1], gen);
      TurnProps(Propagated(s, key, version, names[..|names| - 1], gen).state, key, version, names[|names| - 1], gen);
    }
  }

  lemma TurnProps(s: State, key: Key, version: string, name: string, gen: string -> string)
    ensures PropsOf(PropagatedTo(s, key, version, name, gen).state.shadows) == PropsOf(s.shadows)
  {
    if name in s.apps && NeedsUpdate(s.apps[name], key, version) {
      var app := BumpedApp(s.apps[name], key, version);
      if CanStore(s, app) && app.name in s.apps {
        var row := Revised(app, s.apps[app.name], s.resources, gen(name));
        PatchedProps(s.shadows, Reached(s.matches, s.nodes, row.selector), row, Refresh);
      }
    }
  }

  lemma PushedEntry(app: App, resources: map<Key, string>, version: string)
    requires Keys(app.volumes) <= resources.Keys
    ensures Entry(PushedRow(app, resources, version)) == Entry(app).(version := version)
  {
    LatestSources(app.volumes, resources);
  }

  lemma DeliveredEntry(s: State, key: Key, version: string, gen: string -> string, apps: Apps, bumped: Apps, a: string)
    requires Consistent(s) && key in s.resources && Above(version, s.resources[key])
    requires Resolvable(s.apps, s.resources[key := version]) && a in s.apps
    requires apps == Delivered(s.apps, s.resources[key := version], Users(s, key), gen)
    requires bumped == Bumping(BookOf(s), key, version, gen)
    ensures Entry(apps[a]) == bumped[a]
  {
    UsedKeys(s, key);
    EntryKeys(s.apps[a].volumes);
    PushedEntry(s.apps[a], s.resources[key := version], gen(a));
  }

  lemma DeliveredEntries(s: State, key: Key, version: string, gen: string -> string, apps: Apps, bumped: Apps)
    requires Consistent(s) && key in s.resources && Above(version, s.resources[key])
    requires Resolvable(s.apps, s.resources[key := version])
    requires apps == Delivered(s.apps, s.resources[key := version], Users(s, key), gen)
    requires bumped == Bumping(BookOf(s), key, version, gen)
    ensures Entries(apps) == bumped
  {
    assert apps.Keys == s.apps.Keys && bumped.Keys == s.apps.Keys;
    forall a | a in apps ensures Entry(apps[a]) == bumped[a] {
      DeliveredEntry(s, key, version, gen, apps, bumped, a);
    }
    EntriesAre(apps, bumped);
  }

  lemma EntriesAre(apps: Apps, entries: Apps)
    requires apps.Keys == entries.Keys && forall a | a in apps :: Entry(apps[a]) == entries[a]
    ensures Entries(apps) == entries
  {
  }

  lemma AdvancedBook(s: State, key: Key, version: string, mark: bool, names: seq<string>, gen: string -> string)
    requires Consistent(s) && Elements(names) == Users(s, key) && key in s.resources && LabelsKept(s, key, mark)
    ensures ResourceUpdated(s, key, version, mark, names, gen).outcome.Pass?
    ensures BookOf(ResourceUpdated(s, key, version, mark, names, gen).state)
         == MarkedAs(BookOf(s), key, version, mark).(apps := Bumping(BookOf(s), key, version, gen))
  {
    var s1, bumped := ResourceStored(s, key, version, mark), Bumping(BookOf(s), key, version, gen);
    StoredKept(s, key, version, mark);
    PropagationProps(s1, key, version, names, gen);
    if Above(version, s.resources[key]) {
      AdvancingUpdate(s, key, version, mark, names, gen);
      DeliveredEntries(s, key, version, gen, ResourceUpdated(s, key, version, mark, names, gen).state.apps, bumped);
    } else {
      assert s1.resources[key := s.resources[key]] == s.resources;
      PropagationIdle(s1, key, version, s.resources[key], names, gen);
      assert bumped == BookOf(s).apps;
    }
  }

  lemma UpdateResourceKept(s: State, key: Key, version: string, mark: bool, names: seq<string>, gen: string -> string)
    requires Consistent(s) && Elements(names) == Users(s, key)
    ensures Kept(s, UpdateResource(key, version, mark, names, gen))
  {
    if key in s.resources && LabelsKept(s, key, mark) {
      AdvancedBook(s, key, version, mark, names, gen);
    }
  }

  lemma SimpleResourceKept(s: State, e: Event)
    requires e.CreateResource? || e.EditSecret?
    ensures Kept(s, e)
  {
    if e.CreateResource? {
      StoredKept(s, e.key, e.version, e.mark);
    } else {
      StoredKept(s, Key(Secret, e.name), e.version, e.mark);
    }
  }

  // ----- nodes -----

  lemma SameProps(shadows: Shadows, shadows': Shadows)
    requires shadows'.Keys == shadows.Keys
    requires forall n | n in shadows :: DesiredProps(shadows'[n]) == DesiredProps(shadows[n])
    ensures PropsOf(shadows') == PropsOf(shadows)
  {
  }

  lemma RelabelledBook(s: State, name: string, labels: Labels, order: seq<string>)
    requires Consistent(s) && Lists(order, s.apps.Keys) && name in s.nodes
    ensures NodeUpdated(s, name, labels, order).outcome.Pass?
    ensures BookOf(NodeUpdated(s, name, labels, order).state) == BookOf(s).(nodes := s.nodes[name := labels])
  {
    NodeUpdatedTakesLabels(s, name, labels, order);
    SameProps(s.shadows, NodeUpdated(s, name, labels, order).state.shadows);
  }

  lemma UnknownNodeKept(s: State, e: Event)
    requires (e.UpdateNode? || e.SetProps?) && e.name !in s.nodes
    ensures Kept(s, e)
  {
  }

  lemma KnownNodeKept(s: State, e: Event)
    requires (e.UpdateNode? || e.SetProps?) && e.name in s.nodes && Next(s, e).outcome.Pass?
    requires BookOf(Next(s, e).state) == Posted(s.matches, BookOf(s), e)
    ensures Kept(s, e)
  {
  }

  lemma RelabelledKept(s: State, name: string, labels: Labels, order: seq<string>)
    requires name in s.nodes && NodeUpdated(s, name, labels, order).outcome.Pass?
    requires BookOf(NodeUpdated(s, name, labels, order).state) == BookOf(s).(nodes := s.nodes[name := labels])
    ensures Kept(s, UpdateNode(name, labels, order))
  {
    KnownNodeKept(s, UpdateNode(name, labels, order));
  }

  lemma UpdateNodeKept(s: State, name: string, labels: Labels, order: seq<string>)
    requires Consistent(s) && Lists(order, s.apps.Keys)
    ensures Kept(s, UpdateNode(name, labels, order))
  {
    if name in s.nodes {
      RelabelledBook(s, name, labels, order);
      RelabelledKept(s, name, labels, order);
    } else {
      UnknownNodeKept(s, UpdateNode(name, labels, order));
    }
  }

  lemma WithProps(shadows: Shadows, name: string, desire: Desire, props: map<string, string>)
    ensures PropsOf(shadows[name := Some(desire[NODE_PROPS := Props(props)])])
         == PropsOf(shadows)[name := Some(Props(props))]
  {
  }

  lemma PropsBook(s: State, name: string, props: map<string, string>)
    requires name in s.nodes && name in s.shadows && s.shadows[name].Some?
    ensures PropsSet(s, name, props).outcome.Pass?
    ensures BookOf(PropsSet(s, name, props).state)
         == BookOf(s).(props := BookOf(s).props[name := Some(Props(props))])
  {
    WithProps(s.shadows, name, s.shadows[name].value, props);
  }

  lemma KnownPropsKept(s: State, name: string, props: map<string, string>)
    requires name in s.nodes && name in s.shadows && s.shadows[name].Some?
    ensures Kept(s, SetProps(name, props))
  {
    PropsBook(s, name, props);
    KnownNodeKept(s, SetProps(name, props));
  }

  lemma SetPropsKept(s: State, name: string, props: map<string, string>)
    requires Consistent(s)
    ensures Kept(s, SetProps(name, props))
  {
    if name in s.nodes {
      assert DesireExact(s.matches, s.apps, s.nodes[name], s.shadows[name]);
      KnownPropsKept(s, name, props);
    } else {
      UnknownNodeKept(s, SetProps(name, props));
    }
  }

  lemma AllMountedNext(gens: seq<App>, keys: set<Key>)
    requires gens != []
    ensures AllMounted(gens, keys) <==>
            AllMounted(gens[..|gens| - 1], keys) && Keys(gens[|gens| - 1].volumes) <= keys
  {
    var init := gens[..|gens| - 1];
    assert forall i | 0 <= i < |init| :: init[i] == gens[i];
    if AllMounted(init, keys) && Keys(gens[|gens| - 1].volumes) <= keys {
      forall i | 0 <= i < |gens| ensures Keys(gens[i].volumes) <= keys {
        if i < |init| { assert init[i] == gens[i]; }
      }
    }
  }

  /** Generated apps are all stored, as they were generated, exactly when everything they mount exists. */
  lemma {:induction false} GeneratedEntries(s: State, gens: seq<App>)
    ensures RowsGenerated(s, gens).outcome == if AllMounted(gens, s.resources.Keys) then Pass else Fail(ResourceMissing)
    ensures RowsGenerated(s, gens).outcome.Pass? ==>
            Entries(RowsGenerated(s, gens).state.apps) == Entered(Entries(s.apps), gens)
  {
    if gens != [] {
      GeneratedEntries(s, gens[..|gens| - 1]);
      RowsGeneratedShape(s, gens[..|gens| - 1]);
      AllMountedNext(gens, s.resources.Keys);
      if RowsGenerated(s, gens).outcome.Pass? { GeneratedNext(s, gens); }
    }
  }

  lemma GeneratedNext(s: State, gens: seq<App>)
    requires gens != [] && RowsGenerated(s, gens).outcome.Pass?
    ensures Entries(RowsGenerated(s, gens).state.apps) == var last := gens[|gens| - 1];
            Entries(RowsGenerated(s, gens[..|gens| - 1]).state.apps)[last.name := Entry(last)]
  {
    var mid, last := RowsGenerated(s, gens[..|gens| - 1]).state, gens[|gens| - 1];
    LatestSources(last.volumes, mid.resources);
    EntriesWith(mid.apps, last.name, last.(volumes := Latest(last.volumes, mid.resources)));
  }

  lemma NodeAdmitted(s: State, name: string, labels: Labels, made: Made, gens: seq<App>, order: seq<string>)
    requires Consistent(s)
    ensures NodeCreated(s, name, labels, made, gens, order).outcome
         == Verdict(s.matches, BookOf(s), CreateNode(name, labels, made, gens, order))
  {
    GeneratedEntries(NodeStarted(s, name, labels, made), gens);
    assert (s.resources + made.versions).Keys == s.resources.Keys + made.versions.Keys;
    assert s.shadows.Keys == s.nodes.Keys;
  }

  lemma RefusedNodeLeavesNothing(s: State, name: string, labels: Labels, made: Made, gens: seq<App>,
                                 order: seq<string>)
    requires NodeCreated(s, name, labels, made, gens, order).outcome.Fail?
    ensures NodeCreated(s, name, labels, made, gens, order).state == s
  {
  }

  lemma NewNodeBook(s: State, name: string, labels: Labels, made: Made, gens: seq<App>, order: seq<string>)
    requires Consistent(s) && NodeCreated(s, name, labels, made, gens, order).outcome.Pass?
    ensures Admits(s.matches, BookOf(s), CreateNode(name, labels, made, gens, order))
    ensures BookOf(NodeCreated(s, name, labels, made, gens, order).state)
         == Posted(s.matches, BookOf(s), CreateNode(name, labels, made, gens, order))
  {
    var s0 := NodeStarted(s, name, labels, made);
    NodeAdmitted(s, name, labels, made, gens, order);
    GeneratedEntries(s0, gens);
    RowsGeneratedShape(s0, gens);
    NewNodeProps(s.shadows, name, RematchedDesire(RowsGenerated(s0, gens).state, order, labels));
    NewLabelled(s, made);
  }

  lemma NewLabelled(s: State, made: Made)
    ensures var all := (s.resources + made.versions).Keys;
            (s.labelled - made.versions.Keys + made.marks) * all
            == (BookOf(s).labelled - made.versions.Keys + made.marks) * all
  {
  }

  lemma CreateNodeKept(s: State, name: string, labels: Labels, made: Made, gens: seq<App>, order: seq<string>)
    requires Consistent(s)
    ensures Kept(s, CreateNode(name, labels, made, gens, order))
  {
    NodeAdmitted(s, name, labels, made, gens, order);
    if NodeCreated(s, name, labels, made, gens, order).outcome.Pass? {
      NewNodeBook(s, name, labels, made, gens, order);
    } else {
      RefusedNodeLeavesNothing(s, name, labels, made, gens, order);
    }
  }

  lemma NewNodeProps(shadows: Shadows, name: string, desire: Desire)
    requires NODE_PROPS !in desire
    ensures PropsOf(shadows[name := Some(desire)]) == PropsOf(shadows)[name := None]
  {
  }

  lemma MountsAgree(apps: Apps, names: seq<string>, gone: set<string>)
    requires Elements(names) == gone
    ensures MountsOf(Entries(apps), gone) == Mounts(apps, names)
  {
    forall a | a in apps ensures Keys(Entries(apps)[a].volumes) == Keys(apps[a].volumes) {
      EntryKeys(apps[a].volumes);
    }
    forall k ensures k in MountsOf(Entries(apps), gone) <==> k in Mounts(apps, names) {
      if k in Mounts(apps, names) {
        var a :| a in names && a in apps && k in Keys(apps[a].volumes);
        assert a in gone && k in Keys(Entries(apps)[a].volumes);
      }
    }
  }

  lemma SingleSourcesAgree(apps: Apps, names: seq<string>)
    requires forall a | a in Elements(names) && a in apps :: SingleSource(Entries(apps)[a].volumes)
    ensures SingleSources(apps, names)
  {
    forall a | a in names && a in apps ensures SingleSource(apps[a].volumes) {
      assert a in Elements(names);
      var vs := apps[a].volumes;
      forall i | 0 <= i < |vs| ensures vs[i].config.None? || vs[i].secret.None? {
        assert Entries(apps)[a].volumes[i] == Sources(vs[i]);
      }
    }
  }

  /** What goes with the apps of a deleted node, told from the book. */
  lemma SweptFromBook(s: State, names: seq<string>)
    ensures var b, resources := BookOf(s), ResourcesSwept(s.apps, s.resources, s.labelled, names);
            && Submap(b.resources, resources)
            && b.resources.Keys - resources.Keys <= b.labelled * MountsOf(b.apps, Elements(names))
            && ((forall a | a in Elements(names) && a in b.apps :: SingleSource(b.apps[a].volumes)) ==>
                  resources == b.resources - b.labelled * MountsOf(b.apps, Elements(names)))
            && s.labelled * resources.Keys == b.labelled * resources.Keys
  {
    var b := BookOf(s);
    MountsAgree(s.apps, names, Elements(names));
    SweptAreMounted(s.apps, s.resources, s.labelled, names);
    if forall a | a in Elements(names) && a in b.apps :: SingleSource(b.apps[a].volumes) {
      SingleSourcesAgree(s.apps, names);
      SweptExactly(s.apps, s.resources, s.labelled, names);
    }
  }

  lemma PropsWithout(shadows: Shadows, name: string)
    ensures PropsOf(shadows - {name}) == PropsOf(shadows) - {name}
  {
  }

  /** The entries of the system apps that select a node are those of the apps deleted with it. */
  lemma GoneEntries(s: State, name: string)
    requires Consistent(s) && name in s.nodes
    ensures var b := BookOf(s);
            Elements(SystemApps(s, name)) ==
            set a | a in b.apps && b.apps[a].system && Selects(s.matches, b.apps[a].selector, b.nodes[name])
  {
    SystemAppsAre(s, name);
  }

  lemma DeleteNodeKept(s: State, name: string)
    requires Consistent(s)
    ensures Struck(s.matches, BookOf(s), name, BookOf(NodeDeleted(s, name).state))
    ensures NodeDeleted(s, name).outcome.Pass?
  {
    if name in s.nodes {
      var sys := SystemApps(s, name);
      NodeDeletedParts(s, name);
      GoneEntries(s, name);
      EntriesWithout(s.apps, Elements(sys));
      PropsWithout(s.shadows, name);
      SweptFromBook(s, sys);
    }
  }

  // ----- every request and every run -----

  /** Every request, whatever becomes of it, does to the namespace what it does to the book. */
  lemma NextKept(s: State, e: Event)
    requires Consistent(s) && Genuine(s, e)
    ensures Kept(s, e)
  {
    match e
    case CreateApp(base, app, version) => CreateAppKept(s, base, app, version);
    case UpdateApp(app, version) => UpdateAppKept(s, app, version);
    case DeleteApp(name) => DeleteAppKept(s, name);
    case UpdateResource(key, version, mark, names, gen) => UpdateResourceKept(s, key, version, mark, names, gen);
    case DeleteResource(key) => DeleteResourceKept(s, key);
    case CreateNode(name, labels, made, gens, order) => CreateNodeKept(s, name, labels, made, gens, order);
    case UpdateNode(name, labels, order) => UpdateNodeKept(s, name, labels, order);
    case DeleteNode(name) => DeleteNodeKept(s, name);
    case SetProps(name, props) => SetPropsKept(s, name, props);
    case _ => SimpleResourceKept(s, e);
  }

  /** The book of every prefix of a run. */
  ghost function Books(matches: Matcher, events: seq<Event>): seq<Book> {
    seq(|events| + 1, k requires 0 <= k <= |events| => BookOf(Run(Empty(matches), events[..k])))
  }

  /** A book opened blank and changed by one request after the other. */
  ghost predicate Account(matches: Matcher, books: seq<Book>, events: seq<Event>) {
    && |books| == |events| + 1 && books[0] == BLANK
    && forall k | 0 <= k < |events| :: Follows(matches, books[k], events[k], books[k + 1])
  }

  /** Over every careful run the namespace is an account of its requests: what is stored at any point is what
      the requests so far entered, and each of them succeeded, or was refused for a reason, as the book says. */
  lemma EveryRunKeepsBook(matches: Matcher, events: seq<Event>)
    requires CarefulRun(Empty(matches), events)
    ensures Account(matches, Books(matches, events), events)
    ensures forall k | 0 <= k < |events| ::
      Next(Run(Empty(matches), events[..k]), events[k]).outcome
      == Verdict(matches, Books(matches, events)[k], events[k])
  {
    assert events[..0] == [];
    BlankAtFirst(matches);
    forall k | 0 <= k < |events|
      ensures Follows(matches, Books(matches, events)[k], events[k], Books(matches, events)[k + 1])
      ensures Next(Run(Empty(matches), events[..k]), events[k]).outcome
           == Verdict(matches, Books(matches, events)[k], events[k])
    {
      StepKept(matches, events, k);
    }
  }

  lemma BlankAtFirst(matches: Matcher)
    ensures BookOf(Empty(matches)) == BLANK
  {
    assert Entries(map[]) == map[] && PropsOf(map[]) == map[];
  }

  lemma StepKept(matches: Matcher, events: seq<Event>, k: nat)
    requires CarefulRun(Empty(matches), events) && k < |events|
    ensures var s := Run(Empty(matches), events[..k]);
            && s.matches == matches && Run(Empty(matches), events[..k + 1]) == Next(s, events[k]).state
            && Kept(s, events[k])
  {
    CarefulUpTo(Empty(matches), events, k);
    EveryRunConsistent(matches, events[..k]);
    MatcherKept(Empty(matches), events[..k]);
    RunStep(Empty(matches), events, k);
    NextKept(Run(Empty(matches), events[..k]), events[k]);
  }

  /** And every node is told exactly the apps that were asked for on its labels, at the versions in the book. */
  lemma EveryRunTellsBook(matches: Matcher, events: seq<Event>, n: string, system: bool)
    requires CarefulRun(Empty(matches), events) && n in BookOf(Run(Empty(matches), events)).nodes
    ensures var s := Run(Empty(matches), events);
            && n in s.shadows && s.shadows[n].Some?
            && Exactly(AppInfos(s.shadows[n].value, system),
                       Wanted(matches, BookOf(s).apps, BookOf(s).nodes[n], system))
  {
    EveryRunConsistent(matches, events);
    MatcherKept(Empty(matches), events);
    var s := Run(Empty(matches), events);
    assert DesireExact(s.matches, s.apps, s.nodes[n], s.shadows[n]);
    assert ListExact(s.matches, s.apps, s.nodes[n], s.shadows[n].value, system);
    WantedEntries(matches, s.apps, s.nodes[n], system);
  }

  lemma WantedEntries(m: Matcher, apps: Apps, labels: Labels, system: bool)
    ensures Wanted(m, Entries(apps), labels, system) == Wanted(m, apps, labels, system)
  {
    forall x ensures x in Wanted(m, Entries(apps), labels, system) <==> x in Wanted(m, apps, labels, system) {
      if x in Wanted(m, apps, labels, system) {
        assert x.name in Entries(apps);
      }
    }
  }
}
