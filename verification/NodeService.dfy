/** service/node.go: desires are edited in place, app by app or node by node. */
module NodeService {
  import opened Collections
  import opened Model
  import opened AppLists
  import opened Namespace
  import opened Database
  import Application = ApplicationService

  method RefreshNodeDesireByApp(shadow: Shadow, app: App)
    modifies shadow
    ensures shadow.desire == Edited(old(shadow.desire), app, Refresh)
  {
    if shadow.desire.None? {
      shadow.desire := Some(map[]);
    }
    var apps := AppInfos(shadow.desire.value, app.system);
    var idx := -1;
    for i := 0 to |apps|
      invariant idx == LastIndex(apps[..i], app.name)
    {
      assert apps[..i + 1] == apps[..i] + [apps[i]];
      assert apps[..i + 1][..i] == apps[..i];
      if apps[i].name == app.name {
        idx := i;
      }
    }
    assert apps[..|apps|] == apps;
    if idx == -1 {
      apps := apps + [AppInfo(app.name, app.version)];
    } else {
      apps := apps[idx := apps[idx].(version := app.version)];
    }
    shadow.desire := Some(SetAppInfos(shadow.desire.value, app.system, apps));
  }

  method DeleteNodeDesireByApp(shadow: Shadow, app: App)
    modifies shadow
    ensures shadow.desire == Edited(old(shadow.desire), app, Remove)
  {
    if shadow.desire.None? {
      return;
    }
    var appInfos: seq<AppInfo> := [];
    var apps := AppInfos(shadow.desire.value, app.system);
    for i := 0 to |apps|
      invariant appInfos == Without(apps[..i], app.name)
    {
      assert apps[..i + 1][..i] == apps[..i];
      if apps[i].name != app.name {
        appInfos := appInfos + [apps[i]];
      }
    }
    assert apps[..|apps|] == apps;
    shadow.desire := Some(SetAppInfos(shadow.desire.value, app.system, appInfos));
  }

  method EditDesires(rows: seq<Shadow>, app: App, edit: Edit)
    requires forall i, j | 0 <= i < j < |rows| :: rows[i] != rows[j]
    modifies rows
    ensures forall i | 0 <= i < |rows| :: rows[i].desire == Edited(old(rows[i].desire), app, edit)
  {
    for k := 0 to |rows|
      invariant forall i | 0 <= i < k :: rows[i].desire == Edited(old(rows[i].desire), app, edit)
      invariant forall i | k <= i < |rows| :: rows[i].desire == old(rows[i].desire)
    {
      assert forall i | 0 <= i < |rows| && i != k :: rows[i] != rows[k];
      EditDesire(rows[k], app, edit);
    }
  }

  method EditDesire(row: Shadow, app: App, edit: Edit)
    modifies row
    ensures row.desire == Edited(old(row.desire), app, edit)
  {
    match edit
    case Refresh => RefreshNodeDesireByApp(row, app);
    case Remove => DeleteNodeDesireByApp(row, app);
  }

  method UpdateDesire(db: Tables, names: seq<string>, app: App, edit: Edit)
    modifies db`shadows
    ensures db.shadows == Patched(old(db.shadows), Elements(names), app, edit)
  {
    var rows := db.ListShadowByNames(names);
    EditDesires(rows, app, edit);
    db.UpdateDesires(rows);
    ghost var was := old(db.shadows);
    forall n | n in was && n in names ensures n in db.shadows && db.shadows[n] == Edited(was[n], app, edit) {
      var i :| 0 <= i < |rows| && rows[i].name == n;
      assert db.shadows[rows[i].name] == rows[i].desire;
    }
    assert db.shadows.Keys == was.Keys;
  }

  method UpdateNodeAppVersion(db: Tables, app: App) returns (nodes: seq<string>)
    modifies db`shadows
    ensures db.View() == VersionPushed(old(db.View()), app)
    ensures Elements(nodes) == Reached(db.matches, db.nodes, app.selector)
  {
    nodes := [];
    if app.selector == "" {
      assert Patched(db.shadows, {}, app, Refresh) == db.shadows;
      return;
    }
    nodes := db.ListNode(app.selector);
    UpdateDesire(db, nodes, app, Refresh);
  }

  method DeleteNodeAppVersion(db: Tables, app: App) returns (nodes: seq<string>)
    modifies db`shadows
    ensures db.View() ==
      old(db.View()).(shadows := Patched(old(db.shadows), Reached(db.matches, db.nodes, app.selector), app, Remove))
    ensures Elements(nodes) == Reached(db.matches, db.nodes, app.selector)
  {
    nodes := [];
    if app.selector == "" {
      assert Patched(db.shadows, {}, app, Remove) == db.shadows;
      return;
    }
    nodes := db.ListNode(app.selector);
    UpdateDesire(db, nodes, app, Remove);
  }

  /** Names of the apps that select the labels, in listing order. */
  ghost function MatchedNames(s: State, order: seq<string>, labels: Labels): seq<string> {
    if order == [] then []
    else
      var rest, name := MatchedNames(s, order[..|order| - 1], labels), order[|order| - 1];
      if name in s.apps && Selects(s.matches, s.apps[name].selector, labels) then rest + [s.apps[name].name] else rest
  }

  lemma {:induction false} MatchedNamesAre(s: State, order: seq<string>, labels: Labels)
    ensures forall x :: x in MatchedNames(s, order, labels) <==>
      exists a :: a in order && a in s.apps && Selects(s.matches, s.apps[a].selector, labels) && s.apps[a].name == x
  {
    if order != [] {
      var init, last := order[..|order| - 1], order[|order| - 1];
      assert order == init + [last];
      MatchedNamesAre(s, init, labels);
    }
  }

  method RematchApplicationsForNode(db: Tables, order: seq<string>, labels: Labels)
    returns (desire: Desire, appNames: seq<string>)
    requires Elements(order) == db.apps.Keys
    ensures desire == RematchedDesire(db.View(), order, labels)
    ensures Elements(appNames) == Selecting(db.View(), labels)
  {
    var desireApps: seq<AppInfo>, sysApps: seq<AppInfo> := [], [];
    appNames := [];
    for i := 0 to |order|
      invariant desireApps == Rematched(db.View(), order[..i], labels, false)
      invariant sysApps == Rematched(db.View(), order[..i], labels, true)
      invariant appNames == MatchedNames(db.View(), order[..i], labels)
    {
      assert order[..i + 1][..i] == order[..i];
      assert order[i] in Elements(order);
      var app := db.apps[order[i]];
      if app.selector != "" && db.matches(app.selector, labels) {
        if app.system {
          sysApps := sysApps + [AppInfo(app.name, app.version)];
        } else {
          desireApps := desireApps + [AppInfo(app.name, app.version)];
        }
        appNames := appNames + [app.name];
      }
    }
    assert order[..|order|] == order;
    MatchedNamesAre(db.View(), order, labels);
    assert forall a :: a in order <==> a in db.apps by { assert forall a :: a in order <==> a in Elements(order); }
    desire := map[APPS := Infos(desireApps), SYSAPPS := Infos(sysApps)];
  }

  // ----- nodes -----

  /** Rows for the apps generated from templates; their random names are not in use. */
  method GenApps(db: Tables, gens: seq<App>) returns (outcome: Outcome)
    requires forall i | 0 <= i < |gens| :: gens[i].name !in db.apps
    requires forall i, j | 0 <= i < j < |gens| :: gens[i].name != gens[j].name
    modifies db`apps, db`useRows
    ensures outcome == RowsGenerated(old(db.View()), gens).outcome
    ensures outcome.Pass? ==> db.View() == RowsGenerated(old(db.View()), gens).state
  {
    ghost var s0 := db.View();
    outcome := Pass;
    for i := 0 to |gens|
      invariant outcome.Pass? && Step(db.View(), Pass) == RowsGenerated(s0, gens[..i])
      invariant forall k | i <= k < |gens| :: gens[k].name !in db.apps
    {
      assert gens[..i + 1][..i] == gens[..i];
      var row;
      outcome, row := Application.Create(db, gens[i], gens[i].version);
      if outcome.Fail? {
        GenerationStops(s0, gens, i);
        return;
      }
    }
    assert gens[..|gens|] == gens;
  }

  lemma {:induction false} GenerationStops(s: State, gens: seq<App>, i: nat)
    requires i < |gens| && RowsGenerated(s, gens[..i + 1]).outcome.Fail?
    ensures RowsGenerated(s, gens).outcome == RowsGenerated(s, gens[..i + 1]).outcome
    decreases |gens|
  {
    if i + 1 == |gens| {
      assert gens[..i + 1] == gens;
    } else {
      var init := gens[..|gens| - 1];
      assert init[..i + 1] == gens[..i + 1];
      GenerationStops(s, init, i);
    }
  }

  method CreateNode(db: Tables, name: string, labels: Labels, made: Made, gens: seq<App>)
    returns (outcome: Outcome, ghost order: seq<string>)
    requires forall i | 0 <= i < |gens| :: gens[i].name !in db.apps
    requires forall i, j | 0 <= i < j < |gens| :: gens[i].name != gens[j].name
    modifies db
    ensures Step(db.View(), outcome) == NodeCreated(old(db.View()), name, labels, made, gens, order)
    ensures outcome.Pass? ==> Lists(order, db.apps.Keys)
  {
    order := [];
    if name in db.nodes {
      return Fail(NameInUse), order;
    }
    var tx := db.BeginTx();
    db.nodes := db.nodes[name := labels];
    db.resources := db.resources + made.versions;
    db.labelled := db.labelled - made.versions.Keys + made.marks;
    outcome := GenApps(db, gens);
    if outcome.Pass? {
      outcome, order := PlaceNode(db, name, labels);
    }
    if outcome.Fail? {
      db.Rollback(tx);
    }
  }

  /** The new node's desire and index row, from a scan of all apps. */
  method PlaceNode(db: Tables, name: string, labels: Labels) returns (outcome: Outcome, ghost order: seq<string>)
    modifies db`shadows, db`placed
    ensures Lists(order, db.apps.Keys)
    ensures outcome == if name in old(db.shadows) then Fail(NameInUse) else Pass
    ensures outcome.Pass? ==>
      db.View() == NodePlaced(old(db.View()), name, labels, RematchedDesire(old(db.View()), order, labels))
  {
    var listed := db.ListApplication();
    order := listed;
    var desire, appNames := RematchApplicationsForNode(db, listed, labels);
    if name in db.shadows {
      return Fail(NameInUse), order;
    }
    db.shadows := db.shadows[name := Some(desire)];
    db.RefreshAppsIndexByNode(name, appNames);
    outcome := Pass;
  }

  /** Outside any transaction; a missing shadow is only noticed after the index row is cleared. */
  method UpdateNode(db: Tables, name: string, labels: Labels) returns (outcome: Outcome, ghost order: seq<string>)
    modifies db
    ensures Step(db.View(), outcome) == NodeUpdated(old(db.View()), name, labels, order)
    ensures Lists(order, db.apps.Keys)
  {
    var listed := db.ListApplication();
    order := listed;
    if name !in db.nodes {
      return Fail(NotFound), order;
    }
    ghost var s0 := db.View();
    db.nodes := db.nodes[name := labels];
    db.RefreshAppsIndexByNode(name, []);
    if name !in db.shadows {
      assert Elements<string>([]) == {};
      return Fail(NotFound), order;
    }
    var desire, appNames := RematchApplicationsForNode(db, listed, labels);
    RematchIgnoresNodes(s0, db.View(), listed, labels);
    db.shadows := db.shadows[name := Some(Merged(db.shadows[name], desire))];
    db.RefreshAppsIndexByNode(name, appNames);
    ColumnTwice(s0.placed, name, Elements<string>([]), Elements(appNames));
    outcome := Pass;
  }

  lemma ColumnTwice(rel: set<(string, string)>, b: string, as_: set<string>, as': set<string>)
    ensures WithColumn(WithColumn(rel, b, as_), b, as') == WithColumn(rel, b, as')
  {
  }

  method SweepVolumes(db: Tables, volumes: seq<Volume>)
    modifies db`resources
    ensures db.resources == Swept(old(db.resources), db.labelled, volumes)
  {
    ghost var was := db.resources;
    for i := 0 to |volumes|
      invariant db.resources == Swept(was, db.labelled, volumes[..i])
    {
      assert volumes[..i + 1][..i] == volumes[..i];
      SweepVolume(db, volumes[i]);
    }
    assert volumes[..|volumes|] == volumes;
  }

  method SweepVolume(db: Tables, v: Volume)
    modifies db`resources
    ensures db.resources == VolumeSwept(old(db.resources), db.labelled, v)
  {
    if v.config.Some? {
      var key := Key(Config, v.config.value.name);
      if key !in db.resources {
        return;
      }
      if key !in db.labelled {
        return;
      }
      db.resources := db.resources - {key};
    }
    if v.secret.Some? {
      var key := Key(Secret, v.secret.value.name);
      if key !in db.resources {
        return;
      }
      if key !in db.labelled {
        return;
      }
      db.resources := db.resources - {key};
    }
  }

  /** Apps that cannot be found are skipped. */
  method DeleteSysApps(db: Tables, names: seq<string>)
    modifies db`apps, db`useRows, db`resources
    ensures db.View() == SysAppsDeleted(old(db.View()), names)
  {
    ghost var s0 := db.View();
    for i := 0 to |names|
      invariant db.View() == SysAppsDeleted(s0, names[..i])
    {
      assert names[..i + 1][..i] == names[..i];
      if names[i] in db.apps {
        SweepVolumes(db, db.apps[names[i]].volumes);
        Application.Delete(db, names[i]);
      }
    }
    assert names[..|names|] == names;
  }

  method ClearPlacements(db: Tables, names: seq<string>)
    modifies db`placed
    ensures db.placed == set p | p in old(db.placed) && p.0 !in Elements(names)
  {
    ghost var was := db.placed;
    for i := 0 to |names|
      invariant db.placed == set p | p in was && p.0 !in Elements(names[..i])
    {
      assert names[..i + 1] == names[..i] + [names[i]];
      db.RefreshNodesIndexByApp(names[i], []);
    }
    assert names[..|names|] == names;
  }

  method SysAppNames(db: Tables, name: string) returns (names: seq<string>)
    ensures names == SystemApps(db.View(), name)
  {
    names := [];
    if name !in db.shadows || db.shadows[name].None? {
      return;
    }
    var infos := AppInfos(db.shadows[name].value, true);
    for i := 0 to |infos|
      invariant |names| == i && forall k | 0 <= k < i :: names[k] == infos[k].name
    {
      names := names + [infos[i].name];
    }
  }

  method DeleteNode(db: Tables, name: string) returns (outcome: Outcome)
    modifies db
    ensures Step(db.View(), outcome) == NodeDeleted(old(db.View()), name)
  {
    outcome := Pass;
    if name !in db.nodes {
      return;
    }
    var sysAppNames := SysAppNames(db, name);
    db.nodes := db.nodes - {name};
    db.shadows := db.shadows - {name};
    db.RefreshAppsIndexByNode(name, []);
    assert Elements<string>([]) == {};
    DeleteSysApps(db, sysAppNames);
    ClearPlacements(db, sysAppNames);
  }

  /** The desire's side of a property update; NodeProperties has the metadata. */
  method UpdateNodeProperties(db: Tables, name: string, props: map<string, string>) returns (outcome: Outcome)
    modifies db`shadows
    ensures Step(db.View(), outcome) == PropsSet(old(db.View()), name, props)
  {
    if name !in db.nodes || name !in db.shadows || db.shadows[name].None? {
      return Fail(NotFound);
    }
    db.shadows := db.shadows[name := Some(db.shadows[name].value[NODE_PROPS := Props(props)])];
    outcome := Pass;
  }
}
