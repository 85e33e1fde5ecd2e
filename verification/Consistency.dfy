/** What it means for the derived tables of a namespace (desires, placement index, reference
    index) to agree with its applications, nodes and resources, and the effect of each
    incremental edit on that agreement. */
module Consistency {
  import opened Collections
  import opened Model
  import opened AppLists
  import opened Namespace

  type Apps = map<string, App>
  type Nodes = map<string, Labels>
  type Shadows = map<string, Option<Desire>>

  // ----- desires -----

  /** The entries a full recompute would put in one list of a node with these labels. */
  ghost function Wanted(m: Matcher, apps: Apps, labels: Labels, system: bool): set<AppInfo> {
    set a | a in apps && apps[a].system == system && Selects(m, apps[a].selector, labels)
      :: AppInfo(a, apps[a].version)
  }

  ghost predicate ListExact(m: Matcher, apps: Apps, labels: Labels, d: Desire, system: bool) {
    && AppsKey(system) in d && d[AppsKey(system)].Infos?
    && Exactly(AppInfos(d, system), Wanted(m, apps, labels, system))
  }

  ghost predicate DesireExact(m: Matcher, apps: Apps, labels: Labels, d: Option<Desire>) {
    && d.Some? && d.value.Keys <= {APPS, SYSAPPS, NODE_PROPS}
    && ListExact(m, apps, labels, d.value, false)
    && ListExact(m, apps, labels, d.value, true)
  }

  ghost predicate DesiresExact(m: Matcher, apps: Apps, nodes: Nodes, shadows: Shadows) {
    && shadows.Keys == nodes.Keys
    && forall n | n in nodes :: DesireExact(m, apps, nodes[n], shadows[n])
  }

  // ----- indexes -----

  ghost function Placement(m: Matcher, apps: Apps, nodes: Nodes): set<(string, string)> {
    set a, n | a in apps && n in nodes && Selects(m, apps[a].selector, nodes[n]) :: (a, n)
  }

  ghost function References(apps: Apps): set<(string, Key)> {
    set a, k | a in apps && k in Keys(apps[a].volumes) :: (a, k)
  }

  // ----- rows -----

  ghost predicate Current(vs: seq<Volume>, resources: map<Key, string>) {
    Keys(vs) <= resources.Keys && Latest(vs, resources) == vs
  }

  ghost predicate RowValid(apps: Apps, a: string)
    requires a in apps
  {
    && apps[a].name == a
    && ValidNames(apps[a])
    && (apps[a].cron.CronWait? ==> apps[a].selector == "")
  }

  ghost predicate RowsExact(apps: Apps, resources: map<Key, string>) {
    forall a | a in apps :: RowValid(apps, a) && Current(apps[a].volumes, resources)
  }

  // ----- the whole state -----

  ghost predicate Consistent(s: State) {
    && DesiresExact(s.matches, s.apps, s.nodes, s.shadows)
    && s.placed == Placement(s.matches, s.apps, s.nodes)
    && s.uses == References(s.apps)
    && RowsExact(s.apps, s.resources)
  }

  ghost function Waiting(apps: Apps): set<string> {
    set a | a in apps && apps[a].cron.CronWait?
  }

  /** A cron row for exactly the waiting apps. */
  ghost predicate CronsExact(s: State) {
    s.crons.Keys == Waiting(s.apps)
  }

  // ----- volumes -----

  lemma {:induction false} KeysMembers(vs: seq<Volume>)
    ensures forall k :: k in Keys(vs) <==> exists i :: 0 <= i < |vs| && k in VolumeKeys(vs[i])
  {
    if vs != [] {
      var init, last := vs[..|vs| - 1], vs[|vs| - 1];
      KeysMembers(init);
      forall k ensures k in Keys(vs) <==> exists i :: 0 <= i < |vs| && k in VolumeKeys(vs[i]) {
        if k in Keys(init) {
          var i :| 0 <= i < |init| && k in VolumeKeys(init[i]);
          assert vs[i] == init[i];
        }
        if i :| 0 <= i < |vs| && k in VolumeKeys(vs[i]) {
          if i < |init| { assert init[i] == vs[i]; }
        }
      }
    }
  }

  lemma {:induction false} LatestAt(vs: seq<Volume>, resources: map<Key, string>)
    requires Keys(vs) <= resources.Keys
    ensures forall i | 0 <= i < |vs| ::
      VolumeKeys(vs[i]) <= resources.Keys && Latest(vs, resources)[i] == LatestVolume(vs[i], resources)
  {
    if vs != [] { LatestAt(vs[..|vs| - 1], resources); }
  }

  /** Taking the latest versions keeps names and keys and leaves nothing outdated. */
  lemma {:induction false} LatestIsCurrent(vs: seq<Volume>, resources: map<Key, string>)
    requires Keys(vs) <= resources.Keys
    ensures Keys(Latest(vs, resources)) == Keys(vs)
    ensures Current(Latest(vs, resources), resources)
  {
    if vs != [] {
      var init, last := vs[..|vs| - 1], vs[|vs| - 1];
      LatestIsCurrent(init, resources);
      var r := Latest(vs, resources);
      assert r[..|r| - 1] == Latest(init, resources);
    }
  }

  lemma {:induction false} LatestIgnores(vs: seq<Volume>, resources: map<Key, string>, resources': map<Key, string>)
    requires Keys(vs) <= resources.Keys && Keys(vs) <= resources'.Keys
    requires forall k | k in Keys(vs) :: resources'[k] == resources[k]
    ensures Latest(vs, resources') == Latest(vs, resources)
  {
    if vs != [] { LatestIgnores(vs[..|vs| - 1], resources, resources'); }
  }

  lemma SameNamesValid(app: App, app': App)
    requires ValidNames(app) && |app'.services| == |app.services| && |app'.volumes| == |app.volumes|
    requires forall i | 0 <= i < |app.services| ::
      app'.services[i].name == app.services[i].name && app'.services[i].mounts == app.services[i].mounts
    requires forall i | 0 <= i < |app.volumes| :: app'.volumes[i].name == app.volumes[i].name
    ensures ValidNames(app')
  {
    forall i, j | 0 <= i < |app'.services| && 0 <= j < |app'.services[i].mounts|
      ensures Mounted(app', app'.services[i].mounts[j])
    {
      var mount := app'.services[i].mounts[j];
      assert Mounted(app, mount);
      var k :| 0 <= k < |app.volumes| && app.volumes[k].name == mount;
      assert app'.volumes[k].name == mount;
    }
  }

  ghost function VolumeNames(app: App): seq<string> {
    seq(|app.volumes|, i requires 0 <= i < |app.volumes| => app.volumes[i].name)
  }

  ghost function ServiceNames(app: App): seq<string> {
    seq(|app.services|, i requires 0 <= i < |app.services| => app.services[i].name)
  }

  /** The naming rules: volume names are distinct, service names are distinct, and what services mount are volumes. */
  lemma ValidNamesAre(app: App)
    ensures ValidNames(app) <==>
            && NoDuplicates(VolumeNames(app)) && NoDuplicates(ServiceNames(app))
            && forall i | 0 <= i < |app.services| :: Elements(app.services[i].mounts) <= Elements(VolumeNames(app))
  {
    forall i, j | 0 <= i < |app.services| && 0 <= j < |app.services[i].mounts|
      ensures Mounted(app, app.services[i].mounts[j]) <==> app.services[i].mounts[j] in VolumeNames(app)
    {
      var mount := app.services[i].mounts[j];
      if k :| 0 <= k < |app.volumes| && app.volumes[k].name == mount { assert VolumeNames(app)[k] == mount; }
      if k :| 0 <= k < |app.volumes| && VolumeNames(app)[k] == mount { assert app.volumes[k].name == mount; }
    }
    if ValidNames(app) {
      assert NoDuplicates(VolumeNames(app)) && NoDuplicates(ServiceNames(app));
    } else if !VolumeNamesDistinct(app) {
      var i, j :| 0 <= i < j < |app.volumes| && app.volumes[i].name == app.volumes[j].name;
      assert VolumeNames(app)[i] == VolumeNames(app)[j];
    } else if !ServiceNamesDistinct(app) {
      var i, j :| 0 <= i < j < |app.services| && app.services[i].name == app.services[j].name;
      assert ServiceNames(app)[i] == ServiceNames(app)[j];
    } else {
      var i, j :| 0 <= i < |app.services| && 0 <= j < |app.services[i].mounts| &&
        !Mounted(app, app.services[i].mounts[j]);
      assert app.services[i].mounts[j] in Elements(app.services[i].mounts);
    }
  }

  lemma LatestKeepsNames(app: App, resources: map<Key, string>)
    requires ValidNames(app) && Keys(app.volumes) <= resources.Keys
    ensures ValidNames(app.(volumes := Latest(app.volumes, resources)))
  {
    LatestAt(app.volumes, resources);
    SameNamesValid(app, app.(volumes := Latest(app.volumes, resources)));
  }

  // ----- one app changes: the wanted sets -----

  lemma WantedWithout(m: Matcher, apps: Apps, labels: Labels, system: bool, a: string)
    ensures Wanted(m, apps - {a}, labels, system) == OtherThan(Wanted(m, apps, labels, system), a)
  {
    forall x | x in OtherThan(Wanted(m, apps, labels, system), a)
      ensures x in Wanted(m, apps - {a}, labels, system)
    {
      assert x.name in apps - {a};
    }
  }

  lemma WantedWith(m: Matcher, apps: Apps, labels: Labels, system: bool, app: App)
    ensures Wanted(m, apps[app.name := app], labels, system)
         == OtherThan(Wanted(m, apps, labels, system), app.name) +
            (if app.system == system && Selects(m, app.selector, labels)
             then {AppInfo(app.name, app.version)} else {})
  {
    var apps' := apps[app.name := app];
    forall x | x in OtherThan(Wanted(m, apps, labels, system), app.name)
      ensures x in Wanted(m, apps', labels, system)
    {
      assert x.name in apps' && apps'[x.name] == apps[x.name];
    }
    if app.system == system && Selects(m, app.selector, labels) {
      assert apps'[app.name] == app;
    }
  }

  // ----- one app changes: the lists of one node -----

  lemma ListWithoutExact(m: Matcher, apps: Apps, labels: Labels, d: Desire, a: string, system: bool)
    requires ListExact(m, apps, labels, d, system)
    requires a in apps && (apps[a].system != system || !Selects(m, apps[a].selector, labels))
    ensures ListExact(m, apps - {a}, labels, d, system)
  {
    WantedWithout(m, apps, labels, system, a);
    assert OtherThan(Wanted(m, apps, labels, system), a) == Wanted(m, apps, labels, system);
  }

  lemma RemovedExact(m: Matcher, apps: Apps, labels: Labels, d: Option<Desire>, a: string)
    requires DesireExact(m, apps, labels, d)
    requires a in apps && apps[a].name == a
    ensures DesireExact(m, apps - {a}, labels,
              if Selects(m, apps[a].selector, labels) then Edited(d, apps[a], Remove) else d)
  {
    var system := apps[a].system;
    ListWithoutExact(m, apps, labels, d.value, a, !system);
    if Selects(m, apps[a].selector, labels) {
      var d' := Edited(d, apps[a], Remove).value;
      WantedWithout(m, apps, labels, system, a);
      WithoutExactly(AppInfos(d.value, system), Wanted(m, apps, labels, system), a);
      assert AppInfos(d', !system) == AppInfos(d.value, !system);
    } else {
      ListWithoutExact(m, apps, labels, d.value, a, system);
    }
  }

  /** Adding an app, or replacing it by one with the same selector and system flag. */
  lemma RefreshedExact(m: Matcher, apps: Apps, labels: Labels, d: Option<Desire>, app: App)
    requires DesireExact(m, apps, labels, d)
    requires app.name in apps ==>
      apps[app.name].selector == app.selector && apps[app.name].system == app.system
    ensures DesireExact(m, apps[app.name := app], labels,
              if Selects(m, app.selector, labels) then Edited(d, app, Refresh) else d)
  {
    var a, system := app.name, app.system;
    WantedWith(m, apps, labels, system, app);
    WantedWith(m, apps, labels, !system, app);
    assert OtherThan(Wanted(m, apps, labels, !system), a) == Wanted(m, apps, labels, !system);
    if Selects(m, app.selector, labels) {
      var d' := Edited(d, app, Refresh).value;
      UpsertExactly(AppInfos(d.value, system), Wanted(m, apps, labels, system), AppInfo(a, app.version));
      assert AppInfos(d', !system) == AppInfos(d.value, !system);
    } else {
      assert OtherThan(Wanted(m, apps, labels, system), a) == Wanted(m, apps, labels, system);
    }
  }

  /** A desire that is missing is begun by the first app put on the node and not by one taken off it. */
  lemma MissingDesireEdited(app: App)
    ensures Edited(None, app, Remove) == None
    ensures Edited(None, app, Refresh).Some?
    ensures Edited(None, app, Refresh).value.Keys == {AppsKey(app.system)}
    ensures AppInfos(Edited(None, app, Refresh).value, app.system) == [AppInfo(app.name, app.version)]
  {
  }

  // ----- one app changes: all nodes -----

  lemma WithdrawalExact(m: Matcher, apps: Apps, nodes: Nodes, shadows: Shadows, a: string)
    requires DesiresExact(m, apps, nodes, shadows)
    requires a in apps && apps[a].name == a
    ensures DesiresExact(m, apps - {a}, nodes,
              Patched(shadows, Reached(m, nodes, apps[a].selector), apps[a], Remove))
  {
    forall n | n in nodes { RemovedExact(m, apps, nodes[n], shadows[n], a); }
  }

  lemma DeploymentExact(m: Matcher, apps: Apps, nodes: Nodes, shadows: Shadows, app: App)
    requires DesiresExact(m, apps, nodes, shadows)
    requires app.name in apps ==>
      apps[app.name].selector == app.selector && apps[app.name].system == app.system
    ensures DesiresExact(m, apps[app.name := app], nodes,
              Patched(shadows, Reached(m, nodes, app.selector), app, Refresh))
  {
    forall n | n in nodes { RefreshedExact(m, apps, nodes[n], shadows[n], app); }
  }

  lemma PlacementWith(m: Matcher, apps: Apps, nodes: Nodes, app: App)
    ensures Placement(m, apps[app.name := app], nodes)
         == WithRow(Placement(m, apps, nodes), app.name, Reached(m, nodes, app.selector))
  {
    var apps' := apps[app.name := app];
    forall p ensures p in Placement(m, apps', nodes)
              <==> p in WithRow(Placement(m, apps, nodes), app.name, Reached(m, nodes, app.selector)) {}
  }

  lemma PlacementWithout(m: Matcher, apps: Apps, nodes: Nodes, a: string)
    ensures Placement(m, apps - {a}, nodes) == WithRow(Placement(m, apps, nodes), a, {})
  {
    forall p ensures p in Placement(m, apps - {a}, nodes)
              <==> p in WithRow(Placement(m, apps, nodes), a, {}) {}
  }

  lemma ReferencesWith(apps: Apps, app: App)
    ensures References(apps[app.name := app]) == WithRow(References(apps), app.name, Keys(app.volumes))
  {
    forall p ensures p in References(apps[app.name := app])
              <==> p in WithRow(References(apps), app.name, Keys(app.volumes)) {}
  }

  lemma ReferencesWithout(apps: Apps, a: string)
    ensures References(apps - {a}) == WithRow(References(apps), a, {})
  {
    forall p ensures p in References(apps - {a}) <==> p in WithRow(References(apps), a, {}) {}
  }

  lemma WaitingAt(apps: Apps, a: string, app: App)
    ensures Waiting(apps[a := app]) == if app.cron.CronWait? then Waiting(apps) + {a} else Waiting(apps) - {a}
  {
  }

  lemma WaitingWith(apps: Apps, app: App)
    ensures Waiting(apps[app.name := app])
         == if app.cron.CronWait? then Waiting(apps) + {app.name} else Waiting(apps) - {app.name}
  {
  }

  lemma WaitingWithout(apps: Apps, names: set<string>)
    ensures Waiting(apps - names) == Waiting(apps) - names
  {
  }

  lemma RowsExactWith(apps: Apps, resources: map<Key, string>, app: App)
    requires RowsExact(apps, resources)
    requires RowValid(apps[app.name := app], app.name) && Current(app.volumes, resources)
    ensures RowsExact(apps[app.name := app], resources)
  {
    forall a | a in apps && a != app.name ensures RowValid(apps[app.name := app], a) {
      assert RowValid(apps, a);
    }
  }

  lemma RowsExactWithout(apps: Apps, resources: map<Key, string>, names: set<string>)
    requires RowsExact(apps, resources)
    ensures RowsExact(apps - names, resources)
  {
    forall a | a in apps - names ensures RowValid(apps - names, a) {
      assert RowValid(apps, a);
    }
  }

  lemma RowTwice<A(!new), B(!new)>(rel: set<(A, B)>, a: A, bs: set<B>, cs: set<B>)
    ensures WithRow(WithRow(rel, a, bs), a, cs) == WithRow(rel, a, cs)
  {
  }
}
