/** service/application.go: storing applications with resolved references. */
module ApplicationService {
  import opened Model
  import opened Namespace
  import opened Consistency
  import opened Database

  method ValidName(app: App) returns (ok: bool)
    ensures ok <==> ValidNames(app)
  {
    var vf: set<string> := {};
    for i := 0 to |app.volumes|
      invariant vf == set k | 0 <= k < i :: app.volumes[k].name
      invariant forall j, k | 0 <= j < k < i :: app.volumes[j].name != app.volumes[k].name
    {
      if app.volumes[i].name in vf {
        var k :| 0 <= k < i && app.volumes[k].name == app.volumes[i].name;
        return false;
      }
      vf := vf + {app.volumes[i].name};
    }
    var sf: set<string> := {};
    for i := 0 to |app.services|
      invariant sf == set k | 0 <= k < i :: app.services[k].name
      invariant forall j, k | 0 <= j < k < i :: app.services[j].name != app.services[k].name
      invariant forall k, j | 0 <= k < i && 0 <= j < |app.services[k].mounts| :: Mounted(app, app.services[k].mounts[j])
    {
      if app.services[i].name in sf {
        var k :| 0 <= k < i && app.services[k].name == app.services[i].name;
        return false;
      }
      for j := 0 to |app.services[i].mounts|
        invariant forall l | 0 <= l < j :: Mounted(app, app.services[i].mounts[l])
      {
        if app.services[i].mounts[j] !in vf {
          assert !Mounted(app, app.services[i].mounts[j]);
          return false;
        }
      }
      sf := sf + {app.services[i].name};
    }
    return true;
  }

  ghost function KeysOf(configs: seq<string>, secrets: seq<string>): set<Key> {
    (set c | c in configs :: Key(Config, c)) + (set c | c in secrets :: Key(Secret, c))
  }

  lemma PrefixKeys(vs: seq<Volume>, i: nat)
    requires i < |vs|
    ensures VolumeKeys(vs[i]) <= Keys(vs)
  {
    KeysMembers(vs);
  }

  lemma KeysOfNext(configs: seq<string>, secrets: seq<string>, config: seq<string>, secret: seq<string>)
    ensures KeysOf(configs + config, secrets + secret) == KeysOf(configs, secrets) + KeysOf(config, secret)
  {
    forall k ensures k in KeysOf(configs + config, secrets + secret) <==>
                     k in KeysOf(configs, secrets) || k in KeysOf(config, secret)
    {
      assert k.kind.Config? || k.kind.Secret?;
    }
  }

  /** The body of the loop: the volume with its references at their current versions, and the names it uses. */
  method GetVolume(db: Tables, volume: Volume)
    returns (ok: bool, latest: Volume, config: seq<string>, secret: seq<string>)
    ensures ok <==> VolumeKeys(volume) <= db.resources.Keys
    ensures ok ==> latest == LatestVolume(volume, db.resources) && KeysOf(config, secret) == VolumeKeys(volume)
  {
    latest, config, secret := volume, [], [];
    if volume.config.Some? {
      var name := volume.config.value.name;
      if Key(Config, name) !in db.resources {
        return false, volume, [], [];
      }
      config := [name];
      latest := latest.(config := Some(Ref(name, db.resources[Key(Config, name)])));
    }
    if volume.secret.Some? {
      var name := volume.secret.value.name;
      if Key(Secret, name) !in db.resources {
        return false, volume, [], [];
      }
      secret := [name];
      latest := latest.(secret := Some(Ref(name, db.resources[Key(Secret, name)])));
    }
    ok := true;
  }

  method GetConfigsAndSecrets(db: Tables, app: App)
    returns (ok: bool, volumes: seq<Volume>, configs: seq<string>, secrets: seq<string>)
    ensures ok <==> Keys(app.volumes) <= db.resources.Keys
    ensures ok ==> volumes == Latest(app.volumes, db.resources) && KeysOf(configs, secrets) == Keys(app.volumes)
  {
    var vs := app.volumes;
    ok, volumes, configs, secrets := true, [], [], [];
    for i := 0 to |vs|
      invariant Keys(vs[..i]) <= db.resources.Keys
      invariant volumes == Latest(vs[..i], db.resources)
      invariant KeysOf(configs, secrets) == Keys(vs[..i])
    {
      assert vs[..i + 1][..i] == vs[..i];
      PrefixKeys(vs, i);
      var found, latest, config, secret := GetVolume(db, vs[i]);
      if !found {
        return false, [], [], [];
      }
      KeysOfNext(configs, secrets, config, secret);
      volumes, configs, secrets := volumes + [latest], configs + config, secrets + secret;
    }
    assert vs[..|vs|] == vs;
  }

  method RefreshReferences(db: Tables, app: string, configs: seq<string>, secrets: seq<string>)
    modifies db`useRows
    ensures db.Uses() == WithRow(old(db.Uses()), app, KeysOf(configs, secrets))
  {
    db.RefreshResourceIndexByApp(app, Config, configs);
    db.RefreshResourceIndexByApp(app, Secret, secrets);
    ghost var was := old(db.Uses());
    forall p ensures p in db.Uses() <==> p in WithRow(was, app, KeysOf(configs, secrets)) {
      assert p.1.kind.Config? || p.1.kind.Secret?;
    }
  }

  /** The insert comes after the index has been refreshed; a name in use fails it. */
  method Create(db: Tables, app: App, version: string) returns (outcome: Outcome, row: App)
    modifies db`apps, db`useRows
    ensures outcome == if !(Keys(app.volumes) <= db.resources.Keys) then Fail(ResourceMissing)
                       else if app.name in old(db.apps) then Fail(NameInUse) else Pass
    ensures outcome.Fail? ==> db.apps == old(db.apps)
    ensures outcome == Fail(ResourceMissing) ==> db.useRows == old(db.useRows)
    ensures outcome == Fail(NameInUse) ==> db.Uses() == WithRow(old(db.Uses()), app.name, Keys(app.volumes))
    ensures outcome.Pass? ==> db.View() == RowCreated(old(db.View()), app, version) && row == db.apps[app.name]
  {
    row := app;
    var ok, volumes, configs, secrets := GetConfigsAndSecrets(db, app);
    if !ok {
      return Fail(ResourceMissing), app;
    }
    RefreshReferences(db, app.name, configs, secrets);
    if app.name in db.apps {
      return Fail(NameInUse), app;
    }
    row := app.(volumes := volumes, version := version);
    db.apps := db.apps[app.name := row];
    outcome := Pass;
  }

  /** The row is not written when the comparison finds no change, and always keeps its system flag and mode;
      the returned app carries those of the request. */
  method Update(db: Tables, app: App, version: string) returns (outcome: Outcome, row: App)
    modifies db`apps, db`useRows
    ensures outcome == if !CanStore(old(db.View()), app) then Fail(StoreError(old(db.View()), app))
                       else if app.name !in old(db.apps) then Fail(NotFound) else Pass
    ensures outcome.Fail? ==> db.View() == old(db.View())
    ensures outcome.Pass? ==> db.View() == RowUpdated(old(db.View()), app, version)
    ensures outcome.Pass? ==> row == Revised(app, old(db.apps)[app.name], db.resources, version)
  {
    row := app;
    var valid := ValidName(app);
    if !valid {
      return Fail(InvalidNames), app;
    }
    var ok, volumes, configs, secrets := GetConfigsAndSecrets(db, app);
    if !ok {
      return Fail(ResourceMissing), app;
    }
    if app.name !in db.apps {
      return Fail(NotFound), app;
    }
    var stored := db.apps[app.name];
    row := app.(volumes := volumes);
    if EqualApp(row, stored) {
      row := row.(version := stored.version);
      assert db.apps[app.name := stored] == db.apps;
    } else {
      row := row.(version := version);
      db.apps := db.apps[app.name := row.(system := stored.system, mode := stored.mode)];
    }
    RefreshReferences(db, app.name, configs, secrets);
    outcome := Pass;
  }

  method Delete(db: Tables, name: string)
    modifies db`apps, db`useRows
    ensures db.View() == RowDeleted(old(db.View()), name)
  {
    db.apps := db.apps - {name};
    RefreshReferences(db, name, [], []);
    assert KeysOf([], []) == {};
  }

  method CreateWithBase(db: Tables, app: App, base: Option<App>, version: string) returns (outcome: Outcome, row: App)
    modifies db`apps, db`useRows
    ensures var app1 := OnTop(app, base);
            outcome == if !CanStore(old(db.View()), app1) then Fail(StoreError(old(db.View()), app1))
                       else if app.name in old(db.apps) then Fail(NameInUse) else Pass
    ensures outcome.Fail? ==> db.apps == old(db.apps)
    ensures outcome.Pass? ==> db.View() == RowCreated(old(db.View()), OnTop(app, base), version)
    ensures outcome.Pass? ==> row == db.apps[app.name]
  {
    var app1 := app;
    if base.Some? {
      app1 := app1.(services := base.value.services + app1.services);
      app1 := app1.(volumes := base.value.volumes + app1.volumes);
    }
    var valid := ValidName(app1);
    if !valid {
      return Fail(InvalidNames), app1;
    }
    outcome, row := Create(db, app1, version);
  }
}
