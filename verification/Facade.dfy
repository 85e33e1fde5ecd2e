/** facade/application.go, facade/config.go and facade/secret.go, with the request checks that
    api/application.go, api/config.go and api/secret.go make before calling them. */
module Facade {
  import opened Collections
  import opened Model
  import opened Namespace
  import opened Database
  import Node = NodeService
  import Application = ApplicationService

  // ----- placement of one app -----

  method UpdateNodeAndAppIndex(db: Tables, app: App)
    modifies db`shadows, db`placed
    ensures db.View() == Deployed(old(db.View()), app)
  {
    var nodes := Node.UpdateNodeAppVersion(db, app);
    db.RefreshNodesIndexByApp(app.name, nodes);
  }

  method DeleteNodeAndAppIndex(db: Tables, app: App)
    modifies db`shadows, db`placed
    ensures db.View() == Withdrawn(old(db.View()), app)
  {
    var _ := Node.DeleteNodeAppVersion(db, app);
    db.RefreshNodesIndexByApp(app.name, []);
    assert Elements<string>([]) == {};
  }

  // ----- applications -----

  method GetApp(db: Tables, name: string) returns (app: Option<App>)
    ensures app.None? <==> name !in db.apps
    ensures name in db.apps ==>
      app.value == db.apps[name].(selector := ShownSelector(db.apps, db.crons, name))
  {
    if name !in db.apps {
      return None;
    }
    app := Some(db.apps[name]);
    if app.value.cron.CronWait? {
      if name in db.crons {
        app := Some(app.value.(selector := db.crons[name]));
      }
    }
  }

  method CreateApp(db: Tables, base: Option<App>, app: App, version: string) returns (outcome: Outcome)
    modifies db
    ensures Step(db.View(), outcome) == AppSubmitted(old(db.View()), base, app, version)
  {
    var tx := db.BeginTx();
    var app1 := app;
    if app1.cron.CronWait? {
      if app1.name in db.crons {
        return Fail(CronConflict);
      }
      db.crons := db.crons[app1.name := app1.selector];
      app1 := app1.(selector := "");
    }
    var row;
    outcome, row := Application.CreateWithBase(db, app1, base, version);
    if outcome.Fail? {
      db.Rollback(tx);
      return;
    }
    UpdateNodeAndAppIndex(db, row);
  }

  method UpdateApp(db: Tables, oldApp: App, app: App, version: string) returns (outcome: Outcome)
    requires app.name in db.apps && oldApp == db.apps[app.name]
    modifies db
    ensures Step(db.View(), outcome) == AppResubmitted(old(db.View()), app, version)
  {
    var tx := db.BeginTx();
    var app1 := app;
    if app1.cron.CronWait? {
      if app1.name in db.crons {
        db.crons := db.crons[app1.name := app1.selector];
      }
      app1 := app1.(selector := "");
    }
    if oldApp.cron.CronWait? && app1.cron.CronNotSet? {
      db.crons := db.crons - {app1.name};
    }
    var row;
    outcome, row := Application.Update(db, app1, version);
    if outcome.Fail? {
      db.Rollback(tx);
      return;
    }
    if oldApp.selector != row.selector {
      DeleteNodeAndAppIndex(db, oldApp);
    }
    UpdateNodeAndAppIndex(db, row);
  }

  method DeleteApp(db: Tables, name: string, app: App)
    requires name in db.apps && app == db.apps[name]
    modifies db
    ensures db.View() == Withdrawn(RowDeleted(
      if app.cron.CronWait? then old(db.View()).(crons := old(db.crons) - {name}) else old(db.View()), name), app)
  {
    if app.cron.CronWait? {
      db.crons := db.crons - {name};
    }
    Application.Delete(db, name);
    DeleteNodeAndAppIndex(db, app);
  }

  // ----- requests about applications -----

  /** The part of request validation that looks up what the app mounts. */
  method MountsExist(db: Tables, app: App) returns (ok: bool)
    ensures ok <==> Keys(app.volumes) <= db.resources.Keys
  {
    var vs := app.volumes;
    for i := 0 to |vs|
      invariant Keys(vs[..i]) <= db.resources.Keys
    {
      assert vs[..i + 1][..i] == vs[..i];
      Application.PrefixKeys(vs, i);
      if vs[i].config.Some? && Key(Config, vs[i].config.value.name) !in db.resources {
        return false;
      }
      if vs[i].secret.Some? && Key(Secret, vs[i].secret.value.name) !in db.resources {
        return false;
      }
    }
    assert vs[..|vs|] == vs;
    return true;
  }

  method CreateApplication(db: Tables, base: Option<string>, app: App, version: string) returns (outcome: Outcome)
    modifies db
    ensures Step(db.View(), outcome) == AppCreated(old(db.View()), base, app, version)
  {
    var exist := MountsExist(db, app);
    if !exist {
      return Fail(ResourceMissing);
    }
    if app.name in db.apps {
      return Fail(HasBeenUsed);
    }
    var baseApp: Option<App> := None;
    if base.Some? {
      if base.value !in db.apps {
        return Fail(NotFound);
      }
      baseApp := Some(db.apps[base.value]);
    }
    outcome := CreateApp(db, baseApp, app, version);
  }

  method UpdateApplication(db: Tables, app: App, version: string) returns (outcome: Outcome)
    modifies db
    ensures Step(db.View(), outcome) == AppUpdated(old(db.View()), app, version)
  {
    var exist := MountsExist(db, app);
    if !exist {
      return Fail(ResourceMissing);
    }
    if app.name !in db.apps {
      return Fail(NotFound);
    }
    var oldApp := db.apps[app.name];
    if app.cron != oldApp.cron {
      if !oldApp.cron.CronWait? || !app.cron.CronNotSet? {
        return Fail(CronConflict);
      }
    }
    outcome := UpdateApp(db, oldApp, app, version);
  }

  method DeleteApplication(db: Tables, name: string) returns (outcome: Outcome)
    modifies db
    ensures Step(db.View(), outcome) == AppDeleted(old(db.View()), name)
  {
    if name !in db.apps {
      return Pass;
    }
    if RESERVED_PREFIX <= name && exists p | p in db.placed :: p.0 == name {
      return Fail(ReferencedByNode);
    }
    DeleteApp(db, name, db.apps[name]);
    outcome := Pass;
  }

  // ----- configs and secrets -----

  method NeedUpdateApp(key: Key, version: string, app: App) returns (need: bool, app': App)
    ensures need <==> NeedsUpdate(app, key, version)
    ensures app' == BumpedApp(app, key, version)
  {
    need := false;
    var volumes: seq<Volume> := [];
    for i := 0 to |app.volumes|
      invariant need <==> exists k :: 0 <= k < i && VolumeOutdated(app.volumes[k], key, version)
      invariant volumes == Bumped(app.volumes[..i], key, version)
    {
      assert app.volumes[..i + 1][..i] == app.volumes[..i];
      var volume := app.volumes[i];
      if key.kind.Config? && volume.config.Some? && volume.config.value.name == key.name
         && Above(version, volume.config.value.version) {
        volume := volume.(config := Some(volume.config.value.(version := version)));
        need := true;
      } else if key.kind.Secret? && volume.secret.Some? && volume.secret.value.name == key.name
         && Above(version, volume.secret.value.version) {
        volume := volume.(secret := Some(volume.secret.value.(version := version)));
        need := true;
      }
      volumes := volumes + [volume];
    }
    assert app.volumes[..|app.volumes|] == app.volumes;
    app' := app.(volumes := volumes);
  }

  /** Outside any transaction: what was done before a failure stays done. */
  method UpdateNodeAndApp(db: Tables, key: Key, version: string, appNames: seq<string>, gen: string -> string)
    returns (outcome: Outcome)
    modifies db`apps, db`useRows, db`shadows
    ensures Step(db.View(), outcome) == Propagated(old(db.View()), key, version, appNames, gen)
  {
    ghost var s0 := db.View();
    outcome := Pass;
    for i := 0 to |appNames|
      invariant outcome.Pass? && Step(db.View(), Pass) == Propagated(s0, key, version, appNames[..i], gen)
      invariant db.resources == old(db.resources)
    {
      assert appNames[..i + 1][..i] == appNames[..i];
      outcome := UpdateOneApp(db, key, version, appNames[i], gen);
      if outcome.Fail? {
        StopsAt(s0, key, version, appNames, i, gen);
        return;
      }
    }
    assert appNames[..|appNames|] == appNames;
  }

  lemma {:induction false} StopsAt(s: State, key: Key, version: string, names: seq<string>, i: nat,
                                   gen: string -> string)
    requires i < |names| && Propagated(s, key, version, names[..i + 1], gen).outcome.Fail?
    ensures Propagated(s, key, version, names, gen) == Propagated(s, key, version, names[..i + 1], gen)
    decreases |names|
  {
    if i + 1 == |names| {
      assert names[..i + 1] == names;
    } else {
      var init := names[..|names| - 1];
      assert init[..i + 1] == names[..i + 1];
      StopsAt(s, key, version, init, i, gen);
    }
  }

  method UpdateOneApp(db: Tables, key: Key, version: string, appName: string, gen: string -> string)
    returns (outcome: Outcome)
    modifies db`apps, db`useRows, db`shadows
    ensures Step(db.View(), outcome) == PropagatedTo(old(db.View()), key, version, appName, gen)
  {
    if appName !in db.apps {
      return Pass;
    }
    var need, app := NeedUpdateApp(key, version, db.apps[appName]);
    if !need {
      return Pass;
    }
    var row;
    outcome, row := Application.Update(db, app, gen(appName));
    if outcome.Fail? {
      return;
    }
    var _ := Node.UpdateNodeAppVersion(db, row);
  }

  method UpdateResource(db: Tables, key: Key, version: string, mark: bool, gen: string -> string)
    returns (outcome: Outcome, ghost names: seq<string>)
    modifies db
    ensures Elements(names) == Users(old(db.View()), key)
    ensures Step(db.View(), outcome) == ResourceUpdated(old(db.View()), key, version, mark, names, gen)
  {
    var appNames := db.ListAppsByResource(key);
    names := appNames;
    if key !in db.resources {
      return Fail(NotFound), names;
    }
    if key.kind.Config? && key in db.labelled && !mark {
      return Fail(LabelsFixed), names;
    }
    StoreResource(db, key, version, mark);
    outcome := UpdateNodeAndApp(db, key, version, appNames, gen);
  }

  method StoreResource(db: Tables, key: Key, version: string, mark: bool)
    modifies db`resources, db`labelled
    ensures db.View() == ResourceStored(old(db.View()), key, version, mark)
  {
    db.resources := db.resources[key := version];
    db.labelled := if mark then db.labelled + {key} else db.labelled - {key};
  }

  method CreateResource(db: Tables, key: Key, version: string, mark: bool) returns (outcome: Outcome)
    modifies db`resources, db`labelled
    ensures Step(db.View(), outcome) == ResourceCreated(old(db.View()), key, version, mark)
  {
    if key in db.resources {
      return Fail(NameInUse);
    }
    StoreResource(db, key, version, mark);
    outcome := Pass;
  }

  /** A certificate or the description of a registry is edited. */
  method UpdateCertificate(db: Tables, name: string, version: string, mark: bool) returns (outcome: Outcome)
    modifies db`resources, db`labelled
    ensures Step(db.View(), outcome) == SecretEdited(old(db.View()), name, version, mark)
  {
    if Key(Secret, name) !in db.resources {
      return Fail(NotFound);
    }
    StoreResource(db, Key(Secret, name), version, mark);
    outcome := Pass;
  }

  method DeleteResource(db: Tables, key: Key) returns (outcome: Outcome)
    modifies db`resources
    ensures Step(db.View(), outcome) == ResourceDeleted(old(db.View()), key)
  {
    if key !in db.resources {
      return Pass;
    }
    var appNames := db.ListAppsByResource(key);
    if |appNames| > 0 {
      assert appNames[0] in Elements(appNames);
      return Fail(HasBeenUsed);
    }
    assert Elements(appNames) == {};
    db.resources := db.resources - {key};
    outcome := Pass;
  }
}
