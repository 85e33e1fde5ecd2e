/** Creating, updating and deleting an application keeps the namespace consistent, with the
    exact conditions where the code falls short. */
module AppOperations {
  import opened Collections
  import opened Model
  import opened AppLists
  import opened Namespace
  import opened Consistency

  // ----- create -----

  ghost function CreatedRow(s: State, base: Option<string>, app: App): App
    requires base.Some? ==> base.value in s.apps
  {
    OnTop(Parked(app), BaseApp(s, base))
  }

  /** The request gets past its checks, parks the selector, and only then fails to be stored. */
  ghost predicate CreateStrandsCron(s: State, base: Option<string>, app: App) {
    && Keys(app.volumes) <= s.resources.Keys && app.name !in s.apps && (base.Some? ==> base.value in s.apps)
    && app.cron.CronWait? && app.name !in s.crons
    && !ValidNames(CreatedRow(s, base, app))
  }

  lemma {:induction false} KeysConcat(vs: seq<Volume>, ws: seq<Volume>)
    ensures Keys(vs + ws) == Keys(vs) + Keys(ws)
  {
    if ws == [] {
      assert vs + ws == vs;
    } else {
      assert (vs + ws)[..|vs + ws| - 1] == vs + ws[..|ws| - 1];
      KeysConcat(vs, ws[..|ws| - 1]);
    }
  }

  /** The base app's resources exist, so only names can stop a request that passed the first check. */
  lemma OnlyNamesStop(s: State, base: Option<string>, app: App)
    requires Consistent(s) && Keys(app.volumes) <= s.resources.Keys && (base.Some? ==> base.value in s.apps)
    ensures CanStore(s, CreatedRow(s, base, app)) <==> ValidNames(CreatedRow(s, base, app))
  {
    if base.Some? {
      assert Current(s.apps[base.value].volumes, s.resources);
      KeysConcat(s.apps[base.value].volumes, app.volumes);
    }
  }

  lemma AppAddedConsistent(s: State, app: App, version: string)
    requires Consistent(s) && app.name !in s.apps && CanStore(s, app) && (app.cron.CronWait? ==> app.selector == "")
    ensures Consistent(AppAdded(s, app, version))
  {
    var row := app.(volumes := Latest(app.volumes, s.resources), version := version);
    LatestIsCurrent(app.volumes, s.resources);
    LatestKeepsNames(app, s.resources);
    SameNamesValid(app.(volumes := row.volumes), row);
    DeploymentExact(s.matches, s.apps, s.nodes, s.shadows, row);
    PlacementWith(s.matches, s.apps, s.nodes, row);
    ReferencesWith(s.apps, row);
    RowsExactWith(s.apps, s.resources, row);
  }

  lemma AppCreatedConsistent(s: State, base: Option<string>, app: App, version: string)
    requires Consistent(s)
    ensures Consistent(AppCreated(s, base, app, version).state)
  {
    if AppCreated(s, base, app, version).outcome.Pass? {
      PassedCreateIs(s, base, app, version);
      OnlyCrons(s, CronCreated(s, app));
      AppAddedConsistent(CronCreated(s, app), CreatedRow(s, base, app), version);
    }
  }

  /** The cron row is written outside the transaction, so it outlives a failed creation. */
  lemma AppCreatedCrons(s: State, base: Option<string>, app: App, version: string)
    requires Consistent(s) && CronsExact(s)
    ensures CronsExact(AppCreated(s, base, app, version).state) <==> !CreateStrandsCron(s, base, app)
  {
    if Keys(app.volumes) <= s.resources.Keys && (base.Some? ==> base.value in s.apps) {
      OnlyNamesStop(s, base, app);
    }
    if AppCreated(s, base, app, version).outcome.Pass? {
      SuccessfulCreateCrons(s, base, app, version);
    }
  }

  lemma SuccessfulCreateCrons(s: State, base: Option<string>, app: App, version: string)
    requires CronsExact(s) && AppCreated(s, base, app, version).outcome.Pass?
    ensures CronsExact(AppCreated(s, base, app, version).state)
  {
    var row := CreatedRow(s, base, app);
    PassedCreateIs(s, base, app, version);
    AppAddedWaiting(CronCreated(s, app), row, version);
  }

  lemma PassedCreateIs(s: State, base: Option<string>, app: App, version: string)
    requires AppCreated(s, base, app, version).outcome.Pass?
    ensures app.name !in s.apps && (app.cron.CronWait? ==> app.name !in s.crons)
    ensures base.Some? ==> base.value in s.apps
    ensures CanStore(s, CreatedRow(s, base, app))
    ensures AppCreated(s, base, app, version).state == AppAdded(CronCreated(s, app), CreatedRow(s, base, app), version)
    ensures CreatedRow(s, base, app).name == app.name && CreatedRow(s, base, app).cron == app.cron
    ensures CreatedRow(s, base, app).selector == Parked(app).selector
  {
  }

  lemma AppAddedWaiting(s: State, app: App, version: string)
    requires Keys(app.volumes) <= s.resources.Keys && app.name !in s.apps
    ensures AppAdded(s, app, version).crons == s.crons
    ensures Waiting(AppAdded(s, app, version).apps) == Waiting(s.apps) + (if app.cron.CronWait? then {app.name} else {})
  {
    WaitingWith(s.apps, app.(volumes := Latest(app.volumes, s.resources), version := version));
  }

  /** Once stranded, the row blocks the name for waiting apps, even for a corrected request. */
  lemma StrandedCronBlocksRetry(s: State, base: Option<string>, app: App, version: string, retry: App,
                                base': Option<string>, version': string)
    requires CreateStrandsCron(s, base, app)
    requires retry.name == app.name && retry.cron.CronWait?
    ensures AppCreated(AppCreated(s, base, app, version).state, base', retry, version').outcome.Fail?
  {
  }

  // ----- update -----

  ghost predicate UpdateAccepted(s: State, app: App) {
    && app.name in s.apps && CronMayBecome(s.apps[app.name].cron, app.cron)
    && CanStore(s, Parked(app))
  }

  lemma ParkedNames(app: App)
    ensures ValidNames(Parked(app)) <==> ValidNames(app)
  {
    if ValidNames(app) { SameNamesValid(app, Parked(app)); }
    if ValidNames(Parked(app)) { SameNamesValid(Parked(app), app); }
  }

  ghost predicate SystemFlagKept(s: State, app: App)
    requires app.name in s.apps
  {
    app.system == s.apps[app.name].system || Reached(s.matches, s.nodes, Parked(app).selector) == {}
  }

  lemma RevisedValid(apps: Apps, resources: map<Key, string>, app: App, stored: App, version: string)
    requires ValidNames(app) && Keys(app.volumes) <= resources.Keys && (app.cron.CronWait? ==> app.selector == "")
    requires stored.name == app.name
    ensures var row := Saved(Revised(app, stored, resources, version), stored);
            && RowValid(apps[app.name := row], app.name) && Current(row.volumes, resources)
            && Keys(row.volumes) == Keys(app.volumes)
  {
    var row := Revised(app, stored, resources, version);
    LatestIsCurrent(app.volumes, resources);
    LatestKeepsNames(app, resources);
    SavedLike(row, stored);
    SameNamesValid(app.(volumes := Latest(app.volumes, resources)), Saved(row, stored));
  }

  /** In what placement and names depend on, the saved row is the one the update is about, with the stored flag. */
  lemma SavedLike(row: App, stored: App)
    requires stored.name == row.name && (EqualApp(row, stored) ==> row.version == stored.version)
    ensures var r := Saved(row, stored);
            && r.name == row.name && r.version == row.version && r.selector == row.selector && r.volumes == row.volumes
            && r.cron == row.cron && r.system == stored.system && |r.services| == |row.services|
            && forall i | 0 <= i < |row.services| ::
                 r.services[i].name == row.services[i].name && r.services[i].mounts == row.services[i].mounts
  {
  }

  /** The desires after an accepted update. */
  ghost function UpdatedShadows(s: State, stored: App, row: App): Shadows {
    Patched(if stored.selector == row.selector then s.shadows
            else Patched(s.shadows, Reached(s.matches, s.nodes, stored.selector), stored, Remove),
            Reached(s.matches, s.nodes, row.selector), row, Refresh)
  }

  lemma RedeployedParts(s: State, stored: App, row: App)
    requires stored.name == row.name
    ensures Redeployed(s, stored, row)
         == s.(shadows := UpdatedShadows(s, stored, row),
               placed := WithRow(s.placed, row.name, Reached(s.matches, s.nodes, row.selector)))
  {
    RowTwice(s.placed, row.name, {}, Reached(s.matches, s.nodes, row.selector));
  }

  /** Apart from the desires, an update always leaves the tables in agreement. */
  lemma AppReplacedTables(s: State, app: App, version: string)
    requires Consistent(s) && app.name in s.apps && CanStore(s, app) && (app.cron.CronWait? ==> app.selector == "")
    ensures var s' := AppReplaced(s, app, version);
            && s'.placed == Placement(s'.matches, s'.apps, s'.nodes)
            && s'.uses == References(s'.apps)
            && RowsExact(s'.apps, s'.resources)
  {
    var stored := s.apps[app.name];
    var row := Revised(app, stored, s.resources, version);
    assert RowValid(s.apps, app.name);
    RedeployedParts(RowUpdated(s, app, version), stored, row);
    RevisedValid(s.apps, s.resources, app, stored, version);
    SavedLike(row, stored);
    PlacementWith(s.matches, s.apps, s.nodes, Saved(row, stored));
    ReferencesWith(s.apps, Saved(row, stored));
    RowsExactWith(s.apps, s.resources, Saved(row, stored));
  }

  lemma UpdatedDesiresExact(s: State, row: App)
    requires DesiresExact(s.matches, s.apps, s.nodes, s.shadows)
    requires row.name in s.apps && s.apps[row.name].name == row.name && row.system == s.apps[row.name].system
    ensures DesiresExact(s.matches, s.apps[row.name := row], s.nodes, UpdatedShadows(s, s.apps[row.name], row))
  {
    var a, stored := row.name, s.apps[row.name];
    if stored.selector == row.selector {
      DeploymentExact(s.matches, s.apps, s.nodes, s.shadows, row);
    } else {
      WithdrawalExact(s.matches, s.apps, s.nodes, s.shadows, a);
      DeploymentExact(s.matches, s.apps - {a}, s.nodes,
        Patched(s.shadows, Reached(s.matches, s.nodes, stored.selector), stored, Remove), row);
      assert (s.apps - {a})[a := row] == s.apps[a := row];
    }
  }

  lemma UpsertMember(infos: seq<AppInfo>, info: AppInfo)
    ensures info in Upsert(infos, info)
  {
    var idx := LastIndex(infos, info.name);
    assert Upsert(infos, info)[if idx < 0 then |infos| else idx] == info;
  }

  lemma ListedAppsHaveFlag(m: Matcher, apps: Apps, labels: Labels, d: Desire, system: bool, info: AppInfo)
    requires ListExact(m, apps, labels, d, system) && info in AppInfos(d, system)
    ensures info.name in apps && apps[info.name].system == system
  {
    assert info in Elements(AppInfos(d, system));
  }

  /** A node that matches gets the entry in the list named by the request, whatever is stored. */
  lemma FlippedFlagMisplaces(s: State, stored: App, row: App, n: string, apps: Apps)
    requires row.name in apps && apps[row.name].system != row.system
    requires n in s.shadows && n in Reached(s.matches, s.nodes, row.selector)
    ensures !DesireExact(s.matches, apps, s.nodes[n], UpdatedShadows(s, stored, row)[n])
  {
    var info := AppInfo(row.name, row.version);
    var before := if stored.selector == row.selector then s.shadows
                  else Patched(s.shadows, Reached(s.matches, s.nodes, stored.selector), stored, Remove);
    var d0 := if before[n].Some? then before[n].value else map[];
    var d := UpdatedShadows(s, stored, row)[n];
    assert d == Edited(before[n], row, Refresh);
    UpsertMember(AppInfos(d0, row.system), info);
    if ListExact(s.matches, apps, s.nodes[n], d.value, row.system) {
      ListedAppsHaveFlag(s.matches, apps, s.nodes[n], d.value, row.system, info);
    }
  }

  lemma UnreachedFlagIrrelevant(s: State, stored: App, row: App, flag: bool)
    requires Reached(s.matches, s.nodes, row.selector) == {}
    ensures UpdatedShadows(s, stored, row) == UpdatedShadows(s, stored, row.(system := flag))
  {
  }

  /** Told of the row or of what was saved, nodes hear the same when the flag is the stored one. */
  lemma SavedTold(s: State, stored: App, row: App)
    requires stored.name == row.name && (EqualApp(row, stored) ==> row.version == stored.version)
    ensures UpdatedShadows(s, stored, row.(system := stored.system)) == UpdatedShadows(s, stored, Saved(row, stored))
  {
    SavedLike(row, stored);
    SameEdit(s, stored, row.(system := stored.system), Saved(row, stored));
  }

  lemma SameEdit(s: State, stored: App, a: App, b: App)
    requires a.name == b.name && a.version == b.version && a.system == b.system && a.selector == b.selector
    ensures UpdatedShadows(s, stored, a) == UpdatedShadows(s, stored, b)
  {
  }

  lemma AppReplacedConsistentIff(s: State, app: App, version: string)
    requires Consistent(s) && app.name in s.apps && CanStore(s, app) && (app.cron.CronWait? ==> app.selector == "")
    ensures Consistent(AppReplaced(s, app, version))
            <==> app.system == s.apps[app.name].system || Reached(s.matches, s.nodes, app.selector) == {}
  {
    var s', stored := AppReplaced(s, app, version), s.apps[app.name];
    var row := Revised(app, stored, s.resources, version);
    assert RowValid(s.apps, app.name);
    RedeployedParts(RowUpdated(s, app, version), stored, row);
    assert s'.shadows == UpdatedShadows(s, stored, row);
    AppReplacedTables(s, app, version);
    SavedLike(row, stored);
    UpdatedDesiresExact(s, Saved(row, stored));
    SavedTold(s, stored, row);
    if app.system != stored.system {
      if n :| n in Reached(s.matches, s.nodes, row.selector) {
        FlippedFlagMisplaces(s, stored, row, n, s'.apps);
      } else {
        UnreachedFlagIrrelevant(s, stored, row, stored.system);
      }
    }
  }

  /** The stored system flag is never rewritten, but the desire edit follows the request's flag:
      the update keeps the namespace consistent exactly when the flag is kept or nothing matches. */
  lemma AppUpdatedConsistentIff(s: State, app: App, version: string)
    requires Consistent(s)
    ensures Consistent(AppUpdated(s, app, version).state)
            <==> (UpdateAccepted(s, app) ==> SystemFlagKept(s, app))
  {
    if UpdateAccepted(s, app) {
      var s1 := CronRevised(s, s.apps[app.name], app);
      AcceptedUpdateIs(s, app, version);
      OnlyCrons(s, s1);
      AppReplacedConsistentIff(s1, Parked(app), version);
    } else {
      RefusedUpdateIs(s, app, version);
      OnlyCrons(s, AppUpdated(s, app, version).state);
    }
  }

  lemma AcceptedUpdateIs(s: State, app: App, version: string)
    requires UpdateAccepted(s, app)
    ensures var s1 := CronRevised(s, s.apps[app.name], app);
            && s1 == s.(crons := s1.crons)
            && AppUpdated(s, app, version) == Step(AppReplaced(s1, Parked(app), version), Pass)
  {
  }

  lemma RefusedUpdateIs(s: State, app: App, version: string)
    requires !UpdateAccepted(s, app)
    ensures var r := AppUpdated(s, app, version);
            r.outcome.Fail? && r.state == s.(crons := r.state.crons)
  {
  }

  lemma OnlyCrons(s: State, s': State)
    requires Consistent(s) && s' == s.(crons := s'.crons)
    ensures Consistent(s')
  {
  }

  /** A waiting app loses its cron row when the update that ends the wait fails to be stored. */
  ghost predicate UpdateDropsCron(s: State, app: App) {
    && app.name in s.apps && s.apps[app.name].cron.CronWait? && app.cron.CronNotSet?
    && Keys(app.volumes) <= s.resources.Keys && !ValidNames(app)
  }

  lemma AppUpdatedCrons(s: State, app: App, version: string)
    requires CronsExact(s)
    ensures CronsExact(AppUpdated(s, app, version).state) <==> !UpdateDropsCron(s, app)
  {
    ParkedNames(app);
    if UpdateAccepted(s, app) {
      AcceptedUpdateCrons(s, app, version);
    }
  }

  lemma AcceptedUpdateCrons(s: State, app: App, version: string)
    requires CronsExact(s) && UpdateAccepted(s, app)
    ensures CronsExact(AppUpdated(s, app, version).state)
  {
    AppReplacedWaiting(CronRevised(s, s.apps[app.name], app), Parked(app), version);
  }

  lemma AppReplacedWaiting(s: State, app: App, version: string)
    requires app.name in s.apps && Keys(app.volumes) <= s.resources.Keys
    ensures AppReplaced(s, app, version).crons == s.crons
    ensures Waiting(AppReplaced(s, app, version).apps)
         == if app.cron.CronWait? then Waiting(s.apps) + {app.name} else Waiting(s.apps) - {app.name}
  {
    var row := Revised(app, s.apps[app.name], s.resources, version);
    WaitingAt(s.apps, app.name, Saved(row, s.apps[app.name]));
  }

  // ----- delete -----

  lemma AppDeletedConsistent(s: State, name: string)
    requires Consistent(s)
    ensures Consistent(AppDeleted(s, name).state)
    ensures CronsExact(s) ==> CronsExact(AppDeleted(s, name).state)
  {
    var s' := AppDeleted(s, name).state;
    if name in s.apps && MayDelete(s, name) {
      assert RowValid(s.apps, name);
      WithdrawalExact(s.matches, s.apps, s.nodes, s.shadows, name);
      PlacementWithout(s.matches, s.apps, s.nodes, name);
      ReferencesWithout(s.apps, name);
      RowsExactWithout(s.apps, s.resources, {name});
      WaitingWithout(s.apps, {name});
    }
  }
}
