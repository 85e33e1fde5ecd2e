/** Requests that undo each other or change nothing, and what a namespace does not remember of its history. */
module RoundTrips {
  import opened Collections
  import opened Model
  import opened AppLists
  import opened Namespace
  import opened Consistency
  import opened AppOperations
  import opened NodeOperations
  import opened Runs
  import opened VolumeView
  import opened Compatibility

  // ----- one app list -----

  lemma UpsertSame(infos: seq<AppInfo>, info: AppInfo)
    requires NamesDistinct(infos) && info in infos
    ensures Upsert(infos, info) == infos
  {
    var i :| 0 <= i < |infos| && infos[i] == info;
    var idx := LastIndex(infos, info.name);
    assert idx == i;
  }

  lemma {:induction false} WithoutNone(infos: seq<AppInfo>, name: string)
    requires forall x | x in infos :: x.name != name
    ensures Without(infos, name) == infos
  {
    if infos != [] {
      var init := infos[..|infos| - 1];
      WithoutNone(init, name);
      assert infos == init + [infos[|infos| - 1]];
    }
  }

  /** An entry that was appended is taken out again without a trace. */
  lemma UpsertWithout(infos: seq<AppInfo>, info: AppInfo)
    requires forall x | x in infos :: x.name != info.name
    ensures Without(Upsert(infos, info), info.name) == infos
  {
    var r := infos + [info];
    assert Upsert(infos, info) == r;
    assert r[..|r| - 1] == infos && r[|r| - 1] == info;
    WithoutNone(infos, info.name);
  }

  // ----- one desire -----

  lemma RefreshSame(m: Matcher, apps: Apps, labels: Labels, d: Option<Desire>, a: string)
    requires DesireExact(m, apps, labels, d) && a in apps && apps[a].name == a
    requires Selects(m, apps[a].selector, labels)
    ensures Edited(d, apps[a], Refresh) == d
  {
    var system, info := apps[a].system, AppInfo(a, apps[a].version);
    assert ListExact(m, apps, labels, d.value, system);
    assert info in Wanted(m, apps, labels, system);
    UpsertSame(AppInfos(d.value, system), info);
    assert SetAppInfos(d.value, system, AppInfos(d.value, system)) == d.value;
  }

  lemma SetTwice(d: Desire, system: bool, a: seq<AppInfo>, b: seq<AppInfo>)
    ensures AppInfos(SetAppInfos(d, system, a), system) == a
    ensures SetAppInfos(SetAppInfos(d, system, a), system, b) == SetAppInfos(d, system, b)
  {
  }

  lemma RefreshRemove(m: Matcher, apps: Apps, labels: Labels, d: Option<Desire>, row: App)
    requires DesireExact(m, apps, labels, d) && row.name !in apps
    ensures Edited(Edited(d, row, Refresh), row, Remove) == d
  {
    var infos := AppInfos(d.value, row.system);
    assert ListExact(m, apps, labels, d.value, row.system);
    forall x | x in infos ensures x.name != row.name {
      assert x in Elements(infos);
    }
    var infos' := Upsert(infos, AppInfo(row.name, row.version));
    UpsertWithout(infos, AppInfo(row.name, row.version));
    SetTwice(d.value, row.system, infos', infos);
    assert SetAppInfos(d.value, row.system, infos) == d.value;
  }

  // ----- all desires -----

  lemma PatchedSame(m: Matcher, apps: Apps, nodes: Nodes, shadows: Shadows, a: string)
    requires DesiresExact(m, apps, nodes, shadows) && a in apps && apps[a].name == a
    ensures Patched(shadows, Reached(m, nodes, apps[a].selector), apps[a], Refresh) == shadows
  {
    forall n | n in shadows && n in Reached(m, nodes, apps[a].selector)
      ensures Edited(shadows[n], apps[a], Refresh) == shadows[n]
    {
      RefreshSame(m, apps, nodes[n], shadows[n], a);
    }
  }

  lemma PatchedBack(m: Matcher, apps: Apps, nodes: Nodes, shadows: Shadows, row: App)
    requires DesiresExact(m, apps, nodes, shadows) && row.name !in apps
    ensures var targets := Reached(m, nodes, row.selector);
            Patched(Patched(shadows, targets, row, Refresh), targets, row, Remove) == shadows
  {
    var targets := Reached(m, nodes, row.selector);
    var told := Patched(shadows, targets, row, Refresh);
    assert told.Keys == shadows.Keys;
    forall n | n in shadows ensures (if n in targets then Edited(told[n], row, Remove) else told[n]) == shadows[n] {
      if n in targets { RefreshRemove(m, apps, nodes[n], shadows[n], row); }
    }
  }

  // ----- an app read and submitted again -----

  const KUBE := "kube"

  /** The app as the facade reads it. */
  ghost function Read(s: State, a: string): App
    requires a in s.apps
  {
    s.apps[a].(selector := ShownSelector(s.apps, s.crons, a))
  }

  function ModeShown(mode: string): string {
    if mode == "" then KUBE else mode
  }

  ghost function SettingsOf(app: App): (x: Both)
    ensures |x.services| == |app.services|
  {
    Both(app.settings, seq(|app.services|, i requires 0 <= i < |app.services| => app.services[i].settings))
  }

  ghost function WithSettings(services: seq<Service>, x: Both): (r: seq<Service>)
    requires |x.services| == |services|
    ensures |r| == |services|
  {
    seq(|services|, i requires 0 <= i < |services| => services[i].(settings := x.services[i]))
  }

  /** An app that is shown to a user and submitted unchanged: volumes are shown as certificates and registries
      and hidden again, settings are made compatible once for the view and once for the request, and the
      label that repeats the mode is taken off the view and put back from its mode. */
  ghost function Resubmission(secrets: Secrets, app: App): App {
    var x := Compatible(Compatible(SettingsOf(app)));
    app.(volumes := Rehidden(secrets, app.volumes), settings := x.app, services := WithSettings(app.services, x),
         mode := ModeShown(app.mode), modeLabel := Some(ModeShown(app.mode)))
  }

  ghost predicate SecretsOf(s: State, secrets: Secrets) {
    forall n :: n in secrets <==> Key(Secret, n) in s.resources
  }

  ghost predicate NoProbes(services: seq<Service>) {
    forall i | 0 <= i < |services| :: !services[i].probed
  }

  /** No service has a liveness or readiness probe. */
  ghost predicate Unprobed(app: App) {
    NoProbes(app.services) && NoProbes(app.inits)
  }

  /** Everything about a stored app that reading and submitting it leaves alone. */
  ghost predicate Lasting(secrets: Secrets, app: App) {
    && Tidy(secrets, app.volumes) && Steady(SettingsOf(app)) && app.modeLabel == Some(ModeShown(app.mode))
  }

  lemma VolumeSourcesKeys(v: Volume, w: Volume)
    requires Sources(v) == Sources(w)
    ensures VolumeKeys(v) == VolumeKeys(w)
  {
    assert Erase(v.config) == Erase(w.config) && Erase(v.secret) == Erase(w.secret);
  }

  lemma {:induction false} SourcesKeys(vs: seq<Volume>, ws: seq<Volume>)
    requires SameSources(vs, ws)
    ensures Keys(vs) == Keys(ws)
  {
    if vs != [] {
      assert Sources(vs[|vs| - 1]) == Sources(ws[|ws| - 1]);
      VolumeSourcesKeys(vs[|vs| - 1], ws[|ws| - 1]);
      SourcesKeys(vs[..|vs| - 1], ws[..|ws| - 1]);
    }
  }

  lemma LatestVolumeSameIff(v: Volume, w: Volume, resources: map<Key, string>)
    requires VolumeKeys(v) <= resources.Keys && VolumeKeys(w) <= resources.Keys
    ensures LatestVolume(v, resources) == LatestVolume(w, resources) <==> Sources(v) == Sources(w)
  {
    var l, m := LatestVolume(v, resources), LatestVolume(w, resources);
    assert Sources(l) == Sources(v) && Sources(m) == Sources(w);
    if Sources(v) == Sources(w) {
      assert Erase(v.config) == Erase(w.config) && Erase(v.secret) == Erase(w.secret);
    }
  }

  /** At current versions two lists are equal exactly when they name the same sources. */
  lemma LatestSameIff(vs: seq<Volume>, ws: seq<Volume>, resources: map<Key, string>)
    requires Keys(vs) <= resources.Keys && Keys(ws) <= resources.Keys
    ensures Latest(vs, resources) == Latest(ws, resources) <==> SameSources(vs, ws)
  {
    LatestAt(vs, resources);
    LatestAt(ws, resources);
    if |vs| == |ws| {
      forall i | 0 <= i < |vs|
        ensures Latest(vs, resources)[i] == Latest(ws, resources)[i] <==> Sources(vs[i]) == Sources(ws[i])
      {
        LatestVolumeSameIff(vs[i], ws[i], resources);
      }
    }
  }

  lemma ServicesEqualIff(services: seq<Service>, x: Both, y: Both)
    requires |x.services| == |y.services| == |services|
    requires forall i | 0 <= i < |services| :: y.services[i] == services[i].settings
    ensures EqualServices(WithSettings(services, x), services) <==>
            NoProbes(services) &&
            forall i | 0 <= i < |services| :: x.services[i] == y.services[i].(workload := x.services[i].workload)
  {
    forall i | 0 <= i < |services|
      ensures EqualService(WithSettings(services, x)[i], services[i]) <==>
              !services[i].probed && x.services[i] == y.services[i].(workload := x.services[i].workload)
    {
      assert WithSettings(services, x)[i] == services[i].(settings := x.services[i]);
    }
  }

  lemma SameServicesIff(services: seq<Service>)
    ensures EqualServices(services, services) <==> NoProbes(services)
  {
  }

  /** What the comparison makes of a resubmission. */
  lemma ResubmissionEqualIff(secrets: Secrets, app: App, resources: map<Key, string>)
    requires Current(app.volumes, resources) && SecretsExist(secrets, app.volumes)
    requires Keys(Rehidden(secrets, app.volumes)) <= resources.Keys
    ensures var row := Resubmission(secrets, app);
            EqualApp(row.(volumes := Latest(row.volumes, resources)), app) <==> Unprobed(app) && Lasting(secrets, app)
  {
    LatestSameIff(Rehidden(secrets, app.volumes), app.volumes, resources);
    SurvivesIff(secrets, app.volumes);
    SettingsEqualIff(app);
    SameServicesIff(app.inits);
  }

  lemma SettingsEqualIff(app: App)
    ensures var x := Compatible(Compatible(SettingsOf(app)));
            x.app == app.settings && EqualServices(WithSettings(app.services, x), app.services) <==>
            NoProbes(app.services) && Steady(SettingsOf(app))
  {
    TwiceIff(SettingsOf(app));
    ServicesEqualIff(app.services, Compatible(Compatible(SettingsOf(app))), SettingsOf(app));
  }

  lemma MountedSecretsExist(s: State, secrets: Secrets, vs: seq<Volume>)
    requires SecretsOf(s, secrets) && Keys(vs) <= s.resources.Keys
    ensures SecretsExist(secrets, vs)
  {
    KeysMembers(vs);
    forall i | 0 <= i < |vs| && vs[i].secret.Some? ensures vs[i].secret.value.name in secrets {
      assert Key(Secret, vs[i].secret.value.name) in VolumeKeys(vs[i]);
    }
  }

  /** The resubmission reaches the tables as the stored row does, with its parked selector. */
  lemma ResubmissionParks(s: State, secrets: Secrets, a: string, version: string)
    requires Consistent(s) && CronsExact(s) && a in s.apps
    ensures var app, row := Resubmission(secrets, Read(s, a)), Resubmission(secrets, s.apps[a]);
            && Parked(app) == row && CronRevised(s, s.apps[a], app) == s && app.name == a && app.volumes == row.volumes
            && (UpdateAccepted(s, app) <==> CanStore(s, row))
            && (UpdateAccepted(s, app) ==> AppUpdated(s, app, version) == Step(AppReplaced(s, row, version), Pass))
            && (!UpdateAccepted(s, app) ==> AppUpdated(s, app, version).outcome.Fail?)
  {
    var app, row := Resubmission(secrets, Read(s, a)), Resubmission(secrets, s.apps[a]);
    assert RowValid(s.apps, a);
    assert s.apps[a].cron.CronWait? <==> a in Waiting(s.apps);
    assert SettingsOf(Read(s, a)) == SettingsOf(s.apps[a]);
    assert Parked(app) == row;
    assert CronRevised(s, s.apps[a], app).crons == s.crons;
    if UpdateAccepted(s, app) { AcceptedUpdateIs(s, app, version); } else { RefusedUpdateIs(s, app, version); }
  }

  /** A row that compares equal to the stored one is stored without a trace. */
  lemma EqualLeavesNoTrace(s: State, a: string, app: App, version: string)
    requires Consistent(s) && a in s.apps && app.name == a && app.system == s.apps[a].system
    requires Keys(app.volumes) == Keys(s.apps[a].volumes) && Keys(app.volumes) <= s.resources.Keys
    requires EqualApp(app.(volumes := Latest(app.volumes, s.resources)), s.apps[a])
    ensures AppReplaced(s, app, version) == s
  {
    var stored, row := s.apps[a], Revised(app, s.apps[a], s.resources, version);
    assert RowValid(s.apps, a);
    assert s.apps[a := stored] == s.apps && Saved(row, stored) == stored;
    RedeployedParts(RowUpdated(s, app, version), stored, row);
    ReferencesWith(s.apps, stored);
    PlacementWith(s.matches, s.apps, s.nodes, stored);
    PatchedSame(s.matches, s.apps, s.nodes, s.shadows, a);
    SameEdit(s, stored, row, stored);
  }

  /** Tidy and steady apps without probes can be submitted as they are read without any effect. */
  lemma LastingIdle(s: State, secrets: Secrets, a: string, version: string)
    requires Consistent(s) && CronsExact(s) && a in s.apps && SecretsOf(s, secrets)
    requires Unprobed(s.apps[a]) && Lasting(secrets, s.apps[a])
    ensures AppUpdated(s, Resubmission(secrets, Read(s, a)), version) == Step(s, Pass)
  {
    var stored, row := s.apps[a], Resubmission(secrets, s.apps[a]);
    assert RowValid(s.apps, a) && Current(stored.volumes, s.resources);
    MountedSecretsExist(s, secrets, stored.volumes);
    SurvivesIff(secrets, stored.volumes);
    SourcesKeys(row.volumes, stored.volumes);
    ResubmissionNames(secrets, stored);
    ResubmissionEqualIff(secrets, stored, s.resources);
    ResubmissionParks(s, secrets, a, version);
    EqualLeavesNoTrace(s, a, row, version);
  }

  lemma ResubmissionNames(secrets: Secrets, app: App)
    requires ValidNames(app) && SameSources(Rehidden(secrets, app.volumes), app.volumes)
    ensures ValidNames(Resubmission(secrets, app))
  {
    var row := Resubmission(secrets, app);
    forall i | 0 <= i < |app.volumes| ensures row.volumes[i].name == app.volumes[i].name {
      assert Sources(row.volumes[i]) == Sources(app.volumes[i]);
      SameSourcesSameShape(row.volumes[i], app.volumes[i]);
    }
    SameNamesValid(app, row);
  }

  /** Reading an app and submitting it unchanged, waiting or not, changes nothing anywhere if and only if no
      service has a probe (probes are compared by address), its registries come last and in their own form,
      its certificates are their volumes' only source, its settings need no copying between app and services,
      and its mode label says its mode. Otherwise it is refused or spends a version. The app is a container
      app in kube mode, and its request passes the checks that only look at the request. */
  lemma ResubmitIdleIff(s: State, secrets: Secrets, a: string, version: string)
    requires Consistent(s) && CronsExact(s) && a in s.apps && SecretsOf(s, secrets) && version != s.apps[a].version
    ensures AppUpdated(s, Resubmission(secrets, Read(s, a)), version) == Step(s, Pass) <==>
            Unprobed(s.apps[a]) && Lasting(secrets, s.apps[a])
  {
    var app, row := Resubmission(secrets, Read(s, a)), Resubmission(secrets, s.apps[a]);
    if Unprobed(s.apps[a]) && Lasting(secrets, s.apps[a]) {
      LastingIdle(s, secrets, a, version);
    } else {
      ResubmissionParks(s, secrets, a, version);
      if UpdateAccepted(s, app) {
        ResubmissionSpends(s, secrets, a, version);
      }
    }
  }

  /** The row an accepted resubmission stores when the comparison finds a difference. */
  ghost function ResubmittedRow(secrets: Secrets, stored: App, resources: map<Key, string>, version: string): App
    requires Keys(Rehidden(secrets, stored.volumes)) <= resources.Keys
  {
    var row := Resubmission(secrets, stored);
    row.(volumes := Latest(row.volumes, resources), version := version, system := stored.system, mode := stored.mode)
  }

  /** It lasts. */
  lemma ResubmittedRowLasting(secrets: Secrets, stored: App, resources: map<Key, string>, version: string)
    requires Keys(Rehidden(secrets, stored.volumes)) <= resources.Keys
    ensures Lasting(secrets, ResubmittedRow(secrets, stored, resources, version))
    ensures Unprobed(stored) ==> Unprobed(ResubmittedRow(secrets, stored, resources, version))
  {
    LatestRehiddenTidy(secrets, stored.volumes, resources);
    TwiceSteady(SettingsOf(stored));
    var row := ResubmittedRow(secrets, stored, resources, version);
    assert SettingsOf(row) == Compatible(Compatible(SettingsOf(stored)));
  }

  lemma LatestRehiddenTidy(secrets: Secrets, volumes: seq<Volume>, resources: map<Key, string>)
    requires Keys(Rehidden(secrets, volumes)) <= resources.Keys
    ensures Tidy(secrets, Latest(Rehidden(secrets, volumes), resources))
  {
    var vs := Rehidden(secrets, volumes);
    RehiddenTidy(secrets, volumes);
    LatestIsCurrent(vs, resources);
    LatestSameIff(vs, Latest(vs, resources), resources);
    TidySame(secrets, vs, Latest(vs, resources));
  }

  lemma DifferenceStored(s: State, app: App, version: string)
    requires app.name in s.apps && Keys(app.volumes) <= s.resources.Keys
    requires !EqualApp(app.(volumes := Latest(app.volumes, s.resources)), s.apps[app.name])
    ensures var stored := s.apps[app.name];
            AppReplaced(s, app, version).apps
            == s.apps[app.name := app.(volumes := Latest(app.volumes, s.resources), version := version,
                                       system := stored.system, mode := stored.mode)]
    ensures AppReplaced(s, app, version).resources == s.resources
  {
  }

  /** An accepted resubmission that is not idle takes the new version, and the row it stores lasts. */
  lemma ResubmissionSpends(s: State, secrets: Secrets, a: string, version: string)
    requires Consistent(s) && a in s.apps && SecretsOf(s, secrets) && CanStore(s, Resubmission(secrets, s.apps[a]))
    requires !(Unprobed(s.apps[a]) && Lasting(secrets, s.apps[a]))
    ensures var s' := AppReplaced(s, Resubmission(secrets, s.apps[a]), version);
            && s'.resources == s.resources
            && s'.apps == s.apps[a := ResubmittedRow(secrets, s.apps[a], s.resources, version)]
  {
    assert RowValid(s.apps, a) && Current(s.apps[a].volumes, s.resources);
    MountedSecretsExist(s, secrets, s.apps[a].volumes);
    ResubmissionEqualIff(secrets, s.apps[a], s.resources);
    DifferenceStored(s, Resubmission(secrets, s.apps[a]), version);
  }

  /** One resubmission is enough: once it has been accepted, the next one is idle unless a service has a probe. */
  lemma SecondResubmissionIdle(s: State, secrets: Secrets, a: string, version: string, version': string)
    requires Consistent(s) && CronsExact(s) && a in s.apps && SecretsOf(s, secrets) && Unprobed(s.apps[a])
    requires AppUpdated(s, Resubmission(secrets, Read(s, a)), version).outcome.Pass?
    ensures var s' := AppUpdated(s, Resubmission(secrets, Read(s, a)), version).state;
            a in s'.apps && AppUpdated(s', Resubmission(secrets, Read(s', a)), version') == Step(s', Pass)
  {
    var app := Resubmission(secrets, Read(s, a));
    var s' := AppUpdated(s, app, version).state;
    ResubmissionParks(s, secrets, a, version);
    if Lasting(secrets, s.apps[a]) {
      LastingIdle(s, secrets, a, version);
      LastingIdle(s, secrets, a, version');
    } else {
      ResubmissionSpends(s, secrets, a, version);
      ResubmittedRowLasting(secrets, s.apps[a], s.resources, version);
      AppUpdatedConsistentIff(s, app, version);
      AcceptedUpdateCrons(s, app, version);
      LastingIdle(s', secrets, a, version');
    }
  }

  /** With a probe the resubmission of a lasting app takes the new version and changes nothing else in the row,
      and, like everything else, the desires follow it. */
  lemma ProbedSpends(s: State, secrets: Secrets, a: string, version: string)
    requires Consistent(s) && CronsExact(s) && a in s.apps && SecretsOf(s, secrets)
    requires !Unprobed(s.apps[a]) && Lasting(secrets, s.apps[a])
    ensures var r := AppUpdated(s, Resubmission(secrets, Read(s, a)), version);
            && r.outcome.Pass? && Consistent(r.state) && a in r.state.apps && r.state.apps[a].version == version
            && r.state.apps[a].volumes == s.apps[a].volumes && r.state.apps[a].settings == s.apps[a].settings
  {
    var stored, row := s.apps[a], Resubmission(secrets, s.apps[a]);
    assert RowValid(s.apps, a) && Current(stored.volumes, s.resources);
    MountedSecretsExist(s, secrets, stored.volumes);
    SurvivesIff(secrets, stored.volumes);
    SourcesKeys(row.volumes, stored.volumes);
    ResubmissionNames(secrets, stored);
    LatestSameIff(row.volumes, stored.volumes, s.resources);
    TwiceIff(SettingsOf(stored));
    ResubmissionParks(s, secrets, a, version);
    ResubmissionSpends(s, secrets, a, version);
    AppUpdatedConsistentIff(s, Resubmission(secrets, Read(s, a)), version);
  }

  // ----- an app created and deleted -----

  lemma RowRemoved<A(!new), B(!new)>(rel: set<(A, B)>, a: A, bs: set<B>)
    requires forall p | p in rel :: p.0 != a
    ensures WithRow(WithRow(rel, a, bs), a, {}) == rel
  {
  }

  lemma AddedThenRemoved(s: State, row: App, version: string)
    requires Consistent(s) && row.name !in s.apps && CanStore(s, row)
    ensures var s' := AppAdded(s, row, version);
            && row.name in s'.apps
            && Withdrawn(RowDeleted(s', row.name), s'.apps[row.name]) == s
  {
    var stored := row.(volumes := Latest(row.volumes, s.resources), version := version);
    PatchedBack(s.matches, s.apps, s.nodes, s.shadows, stored);
    assert s.apps[row.name := stored] - {row.name} == s.apps;
    RowRemoved(s.uses, row.name, Keys(row.volumes));
    RowRemoved(s.placed, row.name, Reached(s.matches, s.nodes, row.selector));
  }

  /** Deleting an app right after creating it, with or without a base and scheduled or not, restores
      every table, every desire entry for entry; the deletion is refused exactly when the name has
      the reserved prefix and some node matches. The routes refuse such names on creation and deletion alike,
      so only callers of the services themselves can meet that case. */
  lemma CreateDeleteRestores(s: State, base: Option<string>, app: App, version: string)
    requires Consistent(s) && AppCreated(s, base, app, version).outcome.Pass?
    ensures var s' := AppCreated(s, base, app, version).state;
            AppDeleted(s', app.name) ==
            if Protected(s, app.name, Parked(app).selector) then Step(s', Fail(ReferencedByNode)) else Step(s, Pass)
  {
    var row := CreatedRow(s, base, app);
    assert row.name == app.name && row.cron == app.cron && row.selector == Parked(app).selector;
    if app.cron.CronWait? {
      DeletedWaiting(s, app.selector, row, version);
    } else {
      DeletedAgain(s, row, version);
    }
  }

  ghost predicate Protected(s: State, name: string, selector: string) {
    RESERVED_PREFIX <= name && Reached(s.matches, s.nodes, selector) != {}
  }

  lemma DeletedAgain(s: State, row: App, version: string)
    requires Consistent(s) && row.name !in s.apps && CanStore(s, row) && !row.cron.CronWait?
    ensures var s' := AppAdded(s, row, version);
            AppDeleted(s', row.name) ==
            if Protected(s, row.name, row.selector) then Step(s', Fail(ReferencedByNode)) else Step(s, Pass)
  {
    PlacedAfterCreate(s, row, version);
    AddedThenRemoved(s, row, version);
  }

  lemma DeletedWaiting(s: State, selector: string, row: App, version: string)
    requires Consistent(s) && row.name !in s.apps && CanStore(s, row) && row.cron.CronWait? && row.name !in s.crons
    ensures var s' := AppAdded(s.(crons := s.crons[row.name := selector]), row, version);
            AppDeleted(s', row.name) ==
            if Protected(s, row.name, row.selector) then Step(s', Fail(ReferencedByNode)) else Step(s, Pass)
  {
    PlacedAfterCreate(s, row, version);
    AddedBesideCron(s, selector, row, version);
    AddedThenRemoved(s, row, version);
  }

  lemma AddedBesideCron(s: State, selector: string, row: App, version: string)
    requires Keys(row.volumes) <= s.resources.Keys && row.name !in s.crons
    ensures var s' := AppAdded(s.(crons := s.crons[row.name := selector]), row, version);
            && s'.apps == AppAdded(s, row, version).apps && s'.placed == AppAdded(s, row, version).placed
            && s'.(crons := s'.crons - {row.name}) == AppAdded(s, row, version)
  {
    assert s.crons[row.name := selector] - {row.name} == s.crons;
  }

  lemma PlacedAfterCreate(s: State, row: App, version: string)
    requires Consistent(s) && row.name !in s.apps && CanStore(s, row)
    ensures var s' := AppAdded(s, row, version);
            MayDelete(s', row.name) <==> !Protected(s, row.name, row.selector)
  {
    var s' := AppAdded(s, row, version);
    var targets := Reached(s.matches, s.nodes, row.selector);
    assert s'.placed == WithRow(s.placed, row.name, targets);
    if targets != {} {
      var n :| n in targets;
      assert (row.name, n) in s'.placed;
    }
  }

  // ----- histories -----

  lemma {:induction false} PropagationKeepsMatcher(s: State, key: Key, version: string, names: seq<string>,
                                                   gen: string -> string)
    ensures Propagated(s, key, version, names, gen).state.matches == s.matches
  {
    if names != [] {
      PropagationKeepsMatcher(s, key, version, names[..|names| - 1], gen);
    }
  }

  lemma AppReplacedKeepsMatcher(s: State, app: App, version: string)
    requires app.name in s.apps && Keys(app.volumes) <= s.resources.Keys
    ensures AppReplaced(s, app, version).matches == s.matches
  {
  }

  lemma AppUpdatedKeepsMatcher(s: State, app: App, version: string)
    ensures AppUpdated(s, app, version).state.matches == s.matches
  {
    if UpdateAccepted(s, app) {
      AppReplacedKeepsMatcher(CronRevised(s, s.apps[app.name], app), Parked(app), version);
    }
  }

  lemma NodeDeletedKeepsMatcher(s: State, n: string)
    ensures NodeDeleted(s, n).state.matches == s.matches
  {
    var s1 := s.(nodes := s.nodes - {n}, shadows := s.shadows - {n}, placed := WithColumn(s.placed, n, {}));
    SysAppsDeletedParts(s1, SystemApps(s, n));
  }

  lemma AppCreatedKeepsMatcher(s: State, base: Option<string>, app: App, version: string)
    ensures AppCreated(s, base, app, version).state.matches == s.matches
  {
  }

  lemma NextKeepsMatcher(s: State, e: Event)
    ensures Next(s, e).state.matches == s.matches
  {
    match e
    case CreateApp(base, app, version) => AppCreatedKeepsMatcher(s, base, app, version);
    case UpdateApp(app, version) => AppUpdatedKeepsMatcher(s, app, version);
    case DeleteNode(name) => NodeDeletedKeepsMatcher(s, name);
    case UpdateResource(key, version, mark, names, gen) =>
      PropagationKeepsMatcher(ResourceStored(s, key, version, mark), key, version, names, gen);
    case CreateNode(name, labels, made, gens, _) =>
      RowsGeneratedShape(NodeStarted(s, name, labels, made), gens);
    case _ =>
  }

  lemma {:induction false} MatcherKept(s: State, events: seq<Event>)
    ensures Run(s, events).matches == s.matches
  {
    if events != [] {
      MatcherKept(s, events[..|events| - 1]);
      NextKeepsMatcher(Run(s, events[..|events| - 1]), events[|events| - 1]);
    }
  }

  lemma SameAppsSameDesire(m: Matcher, apps: Apps, labels: Labels, d: Option<Desire>, d': Option<Desire>, system: bool)
    requires DesireExact(m, apps, labels, d) && DesireExact(m, apps, labels, d')
    ensures multiset(AppInfos(d.value, system)) == multiset(AppInfos(d'.value, system))
  {
    assert ListExact(m, apps, labels, d.value, system) && ListExact(m, apps, labels, d'.value, system);
    DistinctNamesDistinct(AppInfos(d.value, system));
    DistinctNamesDistinct(AppInfos(d'.value, system));
    SameElementsPermute(AppInfos(d.value, system), AppInfos(d'.value, system));
  }

  /** However two careful runs went, if they end with the same apps and nodes they end with the same
      indexes, and every node desires the same apps at the same versions, up to order. */
  lemma HistoryForgotten(matches: Matcher, xs: seq<Event>, ys: seq<Event>, n: string, system: bool)
    requires CarefulRun(Empty(matches), xs) && CarefulRun(Empty(matches), ys)
    requires Run(Empty(matches), xs).apps == Run(Empty(matches), ys).apps
    requires Run(Empty(matches), xs).nodes == Run(Empty(matches), ys).nodes
    requires n in Run(Empty(matches), xs).nodes
    ensures Run(Empty(matches), xs).placed == Run(Empty(matches), ys).placed
    ensures Run(Empty(matches), xs).uses == Run(Empty(matches), ys).uses
    ensures n in Run(Empty(matches), xs).shadows && n in Run(Empty(matches), ys).shadows
    ensures Run(Empty(matches), xs).shadows[n].Some? && Run(Empty(matches), ys).shadows[n].Some?
    ensures multiset(AppInfos(Run(Empty(matches), xs).shadows[n].value, system))
         == multiset(AppInfos(Run(Empty(matches), ys).shadows[n].value, system))
  {
    EveryRunConsistent(matches, xs);
    EveryRunConsistent(matches, ys);
    MatcherKept(Empty(matches), xs);
    MatcherKept(Empty(matches), ys);
    var s, t := Run(Empty(matches), xs), Run(Empty(matches), ys);
    SameAppsSameDesire(matches, s.apps, s.nodes[n], s.shadows[n], t.shadows[n], system);
  }
}
