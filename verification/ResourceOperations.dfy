/** Configs and secrets: a new version reaches every app that uses the resource, and a
    resource in use is never removed. */
module ResourceOperations {
  import opened Collections
  import opened Model
  import opened Namespace
  import opened Consistency

  // ----- the order on versions -----

  lemma AboveIrreflexive(a: string)
    ensures !Above(a, a)
  {
    if a != [] { AboveIrreflexive(a[1..]); }
  }

  // ----- volumes of one app -----

  lemma {:induction false} BumpedAt(vs: seq<Volume>, key: Key, version: string)
    ensures forall i | 0 <= i < |vs| :: Bumped(vs, key, version)[i] == VolumeBumped(vs[i], key, version)
  {
    if vs != [] { BumpedAt(vs[..|vs| - 1], key, version); }
  }

  /** Bumping changes versions only, and taking the latest versions afterwards hides it. */
  lemma {:induction false} BumpedLatest(vs: seq<Volume>, key: Key, version: string, resources: map<Key, string>)
    requires Keys(vs) <= resources.Keys
    ensures Keys(Bumped(vs, key, version)) == Keys(vs)
    ensures Latest(Bumped(vs, key, version), resources) == Latest(vs, resources)
  {
    if vs != [] {
      var init := vs[..|vs| - 1];
      BumpedLatest(init, key, version, resources);
      VolumeBumpedLatest(vs[|vs| - 1], key, version, resources);
      var r := Bumped(vs, key, version);
      assert r[..|r| - 1] == Bumped(init, key, version);
    }
  }

  lemma VolumeBumpedLatest(v: Volume, key: Key, version: string, resources: map<Key, string>)
    requires VolumeKeys(v) <= resources.Keys
    ensures VolumeKeys(VolumeBumped(v, key, version)) == VolumeKeys(v)
    ensures LatestVolume(VolumeBumped(v, key, version), resources) == LatestVolume(v, resources)
  {
  }

  lemma VolumeDue(v: Volume, key: Key, carried: string, version: string, resources: map<Key, string>)
    requires VolumeKeys(v) <= resources.Keys + {key} && LatestVolume(v, resources[key := carried]) == v
    ensures VolumeOutdated(v, key, version) <==> key in VolumeKeys(v) && Above(version, carried)
  {
  }

  /** When every reference is at the old version, an update is due exactly for an app that
      uses the resource, and only if the new version sorts above the old one. */
  lemma UpdateDue(app: App, key: Key, carried: string, version: string, resources: map<Key, string>)
    requires Current(app.volumes, resources[key := carried])
    ensures NeedsUpdate(app, key, version) <==> key in Keys(app.volumes) && Above(version, carried)
  {
    KeysMembers(app.volumes);
    LatestAt(app.volumes, resources[key := carried]);
    forall i | 0 <= i < |app.volumes|
      ensures VolumeOutdated(app.volumes[i], key, version) <==>
              key in VolumeKeys(app.volumes[i]) && Above(version, carried)
    {
      VolumeDue(app.volumes[i], key, carried, version, resources);
    }
  }

  // ----- the propagation loop -----

  /** Agreement while an update travels: the apps still pending carry the old version of `key`. */
  ghost predicate RowsExactBut(apps: Apps, resources: map<Key, string>, key: Key, carried: string,
                               pending: set<string>)
  {
    forall a | a in apps :: RowValid(apps, a) && Carries(apps[a], resources, key, carried, a in pending)
  }

  /** A row that still carries the old version of `key`, or everything at its current one. */
  ghost predicate Carries(app: App, resources: map<Key, string>, key: Key, carried: string, behind: bool) {
    && Keys(app.volumes) <= resources.Keys
    && Current(app.volumes, if behind then resources[key := carried] else resources)
  }

  ghost predicate ConsistentBut(s: State, key: Key, carried: string, pending: set<string>) {
    && DesiresExact(s.matches, s.apps, s.nodes, s.shadows)
    && s.placed == Placement(s.matches, s.apps, s.nodes)
    && s.uses == References(s.apps)
    && RowsExactBut(s.apps, s.resources, key, carried, pending)
  }

  lemma BumpedNames(app: App, key: Key, version: string)
    requires ValidNames(app)
    ensures ValidNames(BumpedApp(app, key, version))
  {
    BumpedAt(app.volumes, key, version);
    SameNamesValid(app, BumpedApp(app, key, version));
  }

  lemma BumpedStorable(s: State, app: App, key: Key, version: string)
    requires ValidNames(app) && Keys(app.volumes) <= s.resources.Keys
    ensures CanStore(s, BumpedApp(app, key, version))
  {
    BumpedNames(app, key, version);
    BumpedLatest(app.volumes, key, version, s.resources);
  }

  /** The stored row differs from the old one in its versions only. */
  ghost function PushedRow(stored: App, resources: map<Key, string>, version: string): App
    requires Keys(stored.volumes) <= resources.Keys
  {
    stored.(volumes := Latest(stored.volumes, resources), version := version)
  }

  lemma PushedRowValid(apps: Apps, resources: map<Key, string>, a: string, version: string)
    requires a in apps && RowValid(apps, a) && Keys(apps[a].volumes) <= resources.Keys
    ensures var row := PushedRow(apps[a], resources, version);
            && RowValid(apps[a := row], a) && Current(row.volumes, resources)
            && Keys(row.volumes) == Keys(apps[a].volumes)
  {
    LatestIsCurrent(apps[a].volumes, resources);
    LatestKeepsNames(apps[a], resources);
    SameNamesValid(apps[a].(volumes := Latest(apps[a].volumes, resources)), PushedRow(apps[a], resources, version));
  }

  /** The state in which app `a` has been stored again and its nodes told. */
  ghost function Pushed(s: State, a: string, version: string): State
    requires a in s.apps && Keys(s.apps[a].volumes) <= s.resources.Keys
  {
    var row := PushedRow(s.apps[a], s.resources, version);
    s.(apps := s.apps[a := row], uses := WithRow(s.uses, a, Keys(s.apps[a].volumes)),
       shadows := Patched(s.shadows, Reached(s.matches, s.nodes, row.selector), row, Refresh))
  }

  /** An app with an outdated reference is stored at the new version, and that version is what nodes are told. */
  lemma RowPushedParts(s: State, a: string, key: Key, version: string, v: string)
    requires a in s.apps && s.apps[a].name == a && Keys(s.apps[a].volumes) <= s.resources.Keys
    requires !Current(s.apps[a].volumes, s.resources)
    ensures Keys(Bumped(s.apps[a].volumes, key, version)) <= s.resources.Keys
    ensures RowPushed(s, BumpedApp(s.apps[a], key, version), v) == Pushed(s, a, v)
  {
    BumpedLatest(s.apps[a].volumes, key, version, s.resources);
    var row := Revised(BumpedApp(s.apps[a], key, version), s.apps[a], s.resources, v);
    assert row.volumes == Latest(s.apps[a].volumes, s.resources) != s.apps[a].volumes;
    assert row == PushedRow(s.apps[a], s.resources, v) && Saved(row, s.apps[a]) == row;
  }

  /** A row that is behind is outdated. */
  lemma BehindOutdated(app: App, resources: map<Key, string>, key: Key, carried: string)
    requires Carries(app, resources, key, carried, true)
    requires key in Keys(app.volumes) && resources[key] != carried
    ensures !Current(app.volumes, resources)
  {
    StaleReferenceShows(app.volumes, resources[key := carried], key, resources[key]);
    assert resources[key := carried][key := resources[key]] == resources;
  }

  lemma SameSelectorSamePlacement(m: Matcher, apps: Apps, nodes: Nodes, row: App)
    requires row.name in apps && apps[row.name].selector == row.selector
    ensures Placement(m, apps[row.name := row], nodes) == Placement(m, apps, nodes)
  {
    forall p ensures p in Placement(m, apps[row.name := row], nodes) <==> p in Placement(m, apps, nodes) {}
  }

  lemma RowsExactButWith(apps: Apps, resources: map<Key, string>, key: Key, carried: string, pending: set<string>,
                         row: App)
    requires RowsExactBut(apps, resources, key, carried, pending)
    requires RowValid(apps[row.name := row], row.name) && Current(row.volumes, resources)
    ensures RowsExactBut(apps[row.name := row], resources, key, carried, pending - {row.name})
  {
    var apps' := apps[row.name := row];
    forall a | a in apps'
      ensures RowValid(apps', a) && Carries(apps'[a], resources, key, carried, a in pending - {row.name})
    {
      if a != row.name { assert RowValid(apps, a) && Carries(apps[a], resources, key, carried, a in pending); }
    }
  }

  /** What a turn leaves alone. */
  ghost predicate SameFrame(s: State, s': State) {
    && s'.matches == s.matches && s'.nodes == s.nodes && s'.resources == s.resources && s'.labelled == s.labelled
    && s'.crons == s.crons && s'.uses == s.uses && s'.apps.Keys == s.apps.Keys
    && forall a | a in s.apps :: s'.apps[a].selector == s.apps[a].selector && s'.apps[a].cron == s.apps[a].cron
  }

  lemma PushedUses(s: State, a: string)
    requires s.uses == References(s.apps) && a in s.apps
    ensures WithRow(s.uses, a, Keys(s.apps[a].volumes)) == s.uses
  {
  }

  lemma PushedFrame(s: State, a: string, v: string)
    requires s.uses == References(s.apps) && a in s.apps && Keys(s.apps[a].volumes) <= s.resources.Keys
    ensures SameFrame(s, Pushed(s, a, v))
  {
    PushedUses(s, a);
  }

  lemma PushedReferences(apps: Apps, row: App)
    requires row.name in apps && Keys(row.volumes) == Keys(apps[row.name].volumes)
    ensures References(apps[row.name := row]) == References(apps)
  {
  }

  lemma RowReplaced(s: State, key: Key, carried: string, pending: set<string>, a: string, v: string)
    requires ConsistentBut(s, key, carried, pending) && a in s.apps && Keys(s.apps[a].volumes) <= s.resources.Keys
    ensures ConsistentBut(Pushed(s, a, v), key, carried, pending - {a})
  {
    var row := PushedRow(s.apps[a], s.resources, v);
    assert RowValid(s.apps, a);
    PushedRowValid(s.apps, s.resources, a, v);
    DeploymentExact(s.matches, s.apps, s.nodes, s.shadows, row);
    SameSelectorSamePlacement(s.matches, s.apps, s.nodes, row);
    RowsExactButWith(s.apps, s.resources, key, carried, pending, row);
    PushedReferences(s.apps, row);
    PushedUses(s, a);
  }

  lemma OneTurn(s: State, key: Key, version: string, carried: string, pending: set<string>, a: string,
                gen: string -> string)
    requires ConsistentBut(s, key, carried, pending)
    requires a in pending && (a, key) in s.uses && Above(version, carried)
    requires key in s.resources && s.resources[key] == version
    ensures Keys(s.apps[a].volumes) <= s.resources.Keys
    ensures PropagatedTo(s, key, version, a, gen) == Step(Pushed(s, a, gen(a)), Pass)
  {
    assert RowValid(s.apps, a) && Carries(s.apps[a], s.resources, key, carried, true);
    AboveIrreflexive(carried);
    UpdateDue(s.apps[a], key, carried, version, s.resources);
    BumpedStorable(s, s.apps[a], key, version);
    BehindOutdated(s.apps[a], s.resources, key, carried);
    RowPushedParts(s, a, key, version, gen(a));
  }

  /** An app that already carries the new version is left as it is. */
  lemma SecondVisitIdle(s: State, key: Key, version: string, carried: string, pending: set<string>, a: string,
                        gen: string -> string)
    requires ConsistentBut(s, key, carried, pending) && a !in pending
    requires key in s.resources && s.resources[key] == version
    ensures PropagatedTo(s, key, version, a, gen) == Step(s, Pass)
  {
    if a in s.apps {
      assert RowValid(s.apps, a) && s.resources[key := version] == s.resources;
      UpdateDue(s.apps[a], key, version, version, s.resources);
      AboveIrreflexive(version);
    }
  }

  /** A turn for an app that uses the resource, whether or not it has had its turn before. */
  lemma AnyTurn(s: State, key: Key, version: string, carried: string, pending: set<string>, a: string,
                gen: string -> string)
    requires ConsistentBut(s, key, carried, pending) && (a, key) in s.uses
    requires Above(version, carried) && key in s.resources && s.resources[key] == version
    ensures var r := PropagatedTo(s, key, version, a, gen);
            r.outcome.Pass? && SameFrame(s, r.state) && ConsistentBut(r.state, key, carried, pending - {a})
  {
    if a in pending {
      OneTurn(s, key, version, carried, pending, a, gen);
      RowReplaced(s, key, carried, pending, a, gen(a));
      PushedFrame(s, a, gen(a));
    } else {
      SecondVisitIdle(s, key, version, carried, pending, a, gen);
      assert pending - {a} == pending;
    }
  }

  /** How far the loop has come. */
  ghost predicate Progress(s: State, r: Step, key: Key, carried: string, pending: set<string>) {
    r.outcome.Pass? && SameFrame(s, r.state) && ConsistentBut(r.state, key, carried, pending)
  }

  /** The loop never stops early and leaves only the apps it has not reached pending, also when the
      index lists an app several times. */
  lemma {:induction false} PropagationCompletes(s: State, key: Key, version: string, carried: string,
                                                pending: set<string>, names: seq<string>, gen: string -> string)
    requires ConsistentBut(s, key, carried, pending) && Above(version, carried)
    requires key in s.resources && s.resources[key] == version
    requires forall a | a in names :: (a, key) in s.uses
    ensures Progress(s, Propagated(s, key, version, names, gen), key, carried, pending - Elements(names))
  {
    if names == [] {
      assert pending - Elements(names) == pending;
    } else {
      var init, last := names[..|names| - 1], names[|names| - 1];
      PrefixOfNames(names, pending);
      PropagationCompletes(s, key, version, carried, pending, init, gen);
      var mid := Propagated(s, key, version, init, gen);
      PropagationNext(s, mid, key, version, carried, pending - Elements(init), last, gen);
    }
  }

  lemma PropagationNext(s: State, mid: Step, key: Key, version: string, carried: string, pending: set<string>,
                        a: string, gen: string -> string)
    requires Progress(s, mid, key, carried, pending) && (a, key) in s.uses
    requires Above(version, carried) && key in s.resources && s.resources[key] == version
    ensures Progress(s, PropagatedTo(mid.state, key, version, a, gen), key, carried, pending - {a})
  {
    AnyTurn(mid.state, key, version, carried, pending, a, gen);
    FrameTransitive(s, mid.state, PropagatedTo(mid.state, key, version, a, gen).state);
  }

  lemma PrefixOfNames(names: seq<string>, pending: set<string>)
    requires names != []
    ensures var init, last := names[..|names| - 1], names[|names| - 1];
            && (forall a | a in init :: a in names) && last in names
            && pending - Elements(init) - {last} == pending - Elements(names)
  {
    var init, last := names[..|names| - 1], names[|names| - 1];
    assert names == init + [last];
  }

  lemma FrameTransitive(s: State, t: State, u: State)
    requires SameFrame(s, t) && SameFrame(t, u)
    ensures SameFrame(s, u)
  {
  }

  ghost predicate Resolvable(apps: Apps, resources: map<Key, string>) {
    forall a | a in apps :: Keys(apps[a].volumes) <= resources.Keys
  }

  /** The apps once the named ones have been brought up to date, each at its own new version. */
  ghost function Delivered(apps: Apps, resources: map<Key, string>, names: set<string>, gen: string -> string): Apps
    requires Resolvable(apps, resources)
  {
    map a | a in apps :: if a in names then PushedRow(apps[a], resources, gen(a)) else apps[a]
  }

  lemma DeliveredNext(apps: Apps, resources: map<Key, string>, names: set<string>, a: string, gen: string -> string)
    requires Resolvable(apps, resources) && a in apps && a !in names
    ensures Delivered(apps, resources, names + {a}, gen)
         == Delivered(apps, resources, names, gen)[a := PushedRow(apps[a], resources, gen(a))]
  {
  }

  lemma ResolvableBut(s: State, key: Key, carried: string, pending: set<string>)
    requires ConsistentBut(s, key, carried, pending)
    ensures Resolvable(s.apps, s.resources)
  {
    forall a | a in s.apps ensures Keys(s.apps[a].volumes) <= s.resources.Keys {
      assert Carries(s.apps[a], s.resources, key, carried, a in pending);
    }
  }

  /** The loop brings the named apps to their new versions, once each however often they are listed, and
      leaves every other app as it is. */
  lemma {:induction false} PropagationDelivers(s: State, key: Key, version: string, carried: string,
                                               pending: set<string>, names: seq<string>, gen: string -> string)
    requires ConsistentBut(s, key, carried, pending) && Above(version, carried)
    requires key in s.resources && s.resources[key] == version
    requires (forall a | a in names :: (a, key) in s.uses) && Elements(names) <= pending
    ensures Resolvable(s.apps, s.resources)
    ensures Propagated(s, key, version, names, gen).state.apps == Delivered(s.apps, s.resources, Elements(names), gen)
  {
    ResolvableBut(s, key, carried, pending);
    if names == [] {
      assert Delivered(s.apps, s.resources, {}, gen) == s.apps;
    } else {
      var init, last := names[..|names| - 1], names[|names| - 1];
      PrefixOfNames(names, pending);
      ElementsNext(names);
      PropagationDelivers(s, key, version, carried, pending, init, gen);
      PropagationCompletes(s, key, version, carried, pending, init, gen);
      var mid := Propagated(s, key, version, init, gen);
      DeliveryNext(s, mid, key, version, carried, pending, Elements(init), last, gen);
    }
  }

  lemma ElementsNext(names: seq<string>)
    requires names != []
    ensures Elements(names) == Elements(names[..|names| - 1]) + {names[|names| - 1]}
  {
    assert names == names[..|names| - 1] + [names[|names| - 1]];
  }

  lemma DeliveryNext(s: State, mid: Step, key: Key, version: string, carried: string, pending: set<string>,
                     visited: set<string>, a: string, gen: string -> string)
    requires Resolvable(s.apps, s.resources) && a in s.apps
    requires Progress(s, mid, key, carried, pending - visited) && (a, key) in s.uses && a in pending
    requires Above(version, carried) && key in s.resources && s.resources[key] == version
    requires mid.state.apps == Delivered(s.apps, s.resources, visited, gen)
    ensures PropagatedTo(mid.state, key, version, a, gen).state.apps
         == Delivered(s.apps, s.resources, visited + {a}, gen)
  {
    if a in visited {
      SecondVisitIdle(mid.state, key, version, carried, pending - visited, a, gen);
      assert visited + {a} == visited;
    } else {
      OneTurn(mid.state, key, version, carried, pending - visited, a, gen);
      DeliveredNext(s.apps, s.resources, visited, a, gen);
    }
  }

  /** A version that does not sort above the carried one is not propagated at all. */
  lemma {:induction false} PropagationIdle(s: State, key: Key, version: string, carried: string, names: seq<string>,
                                           gen: string -> string)
    requires RowsExact(s.apps, s.resources[key := carried]) && key in s.resources && !Above(version, carried)
    ensures Propagated(s, key, version, names, gen) == Step(s, Pass)
  {
    if names != [] {
      PropagationIdle(s, key, version, carried, names[..|names| - 1], gen);
      var a := names[|names| - 1];
      if a in s.apps {
        UpdateDue(s.apps[a], key, carried, version, s.resources);
      }
    }
  }

  // ----- the operations -----

  ghost predicate VersionAdvances(s: State, key: Key, version: string)
    requires key in s.resources
  {
    version == s.resources[key] || Above(version, s.resources[key]) || Users(s, key) == {}
  }

  lemma UsedKeys(s: State, key: Key)
    requires s.uses == References(s.apps)
    ensures forall a :: a in Users(s, key) <==> (a, key) in s.uses
    ensures forall a | a in s.apps :: key in Keys(s.apps[a].volumes) <==> a in Users(s, key)
  {
    forall a | a in s.apps ensures key in Keys(s.apps[a].volumes) <==> a in Users(s, key) {
      assert (a, key) in s.uses <==> key in Keys(s.apps[a].volumes);
      if (a, key) in s.uses { assert (a, key).1 == key; }
    }
    forall a | (a, key) in s.uses ensures a in Users(s, key) { assert (a, key).1 == key; }
  }

  /** Rows that do not mention `key` do not notice a change to it. */
  lemma UnusedKeyUnnoticed(s: State, key: Key, resources': map<Key, string>, a: string)
    requires Consistent(s) && a in s.apps && key !in Keys(s.apps[a].volumes)
    requires s.resources.Keys - {key} <= resources'.Keys
    requires forall k | k in s.resources && k != key :: resources'[k] == s.resources[k]
    ensures Current(s.apps[a].volumes, resources')
  {
    LatestIgnores(s.apps[a].volumes, s.resources, resources');
  }

  lemma UpdateStarts(s: State, key: Key, version: string, mark: bool)
    requires Consistent(s) && key in s.resources
    ensures ConsistentBut(ResourceStored(s, key, version, mark), key, s.resources[key], Users(s, key))
  {
    var resources', carried := s.resources[key := version], s.resources[key];
    assert resources'[key := carried] == s.resources;
    UsedKeys(s, key);
    forall a | a in s.apps && a !in Users(s, key) ensures Current(s.apps[a].volumes, resources') {
      UnusedKeyUnnoticed(s, key, resources', a);
    }
    forall a | a in s.apps ensures RowValid(s.apps, a) && Keys(s.apps[a].volumes) <= resources'.Keys {}
  }

  lemma StaleReferenceShows(vs: seq<Volume>, resources: map<Key, string>, key: Key, version: string)
    requires Current(vs, resources) && key in Keys(vs) && version != resources[key]
    ensures !Current(vs, resources[key := version])
  {
    KeysMembers(vs);
    var i :| 0 <= i < |vs| && key in VolumeKeys(vs[i]);
    LatestAt(vs, resources);
    LatestAt(vs, resources[key := version]);
    assert LatestVolume(vs[i], resources) != LatestVolume(vs[i], resources[key := version]);
  }

  /** Updating a config or secret always runs to its end, and afterwards every reference is at the
      new version exactly when that version sorts above the old one, equals it, or nobody uses it.
      (Versions are seconds followed by random letters, so two updates within a second may not advance.) */
  lemma ResourceUpdatedConsistentIff(s: State, key: Key, version: string, mark: bool,
                                     names: seq<string>, gen: string -> string)
    requires Consistent(s) && key in s.resources && LabelsKept(s, key, mark) && Elements(names) == Users(s, key)
    ensures ResourceUpdated(s, key, version, mark, names, gen).outcome.Pass?
    ensures Consistent(ResourceUpdated(s, key, version, mark, names, gen).state) <==> VersionAdvances(s, key, version)
    ensures CronsExact(s) ==> CronsExact(ResourceUpdated(s, key, version, mark, names, gen).state)
  {
    var s1, carried := ResourceStored(s, key, version, mark), s.resources[key];
    if Above(version, carried) {
      AdvancingUpdate(s, key, version, mark, names, gen);
    } else {
      assert s1.resources[key := carried] == s.resources;
      PropagationIdle(s1, key, version, carried, names, gen);
      IdleUpdateConsistentIff(s, key, version, mark);
    }
  }

  /** An advancing version reaches every app that uses the resource and no other: each is stored again with its
      references at their current versions and at its own new version, and nothing else in it changes. */
  lemma AdvancingUpdate(s: State, key: Key, version: string, mark: bool, names: seq<string>, gen: string -> string)
    requires Consistent(s) && key in s.resources && LabelsKept(s, key, mark)
    requires Elements(names) == Users(s, key) && Above(version, s.resources[key])
    ensures var r := ResourceUpdated(s, key, version, mark, names, gen);
            r.outcome.Pass? && Consistent(r.state) && SameFrame(ResourceStored(s, key, version, mark), r.state)
    ensures Resolvable(s.apps, s.resources[key := version])
    ensures ResourceUpdated(s, key, version, mark, names, gen).state.apps
         == Delivered(s.apps, s.resources[key := version], Users(s, key), gen)
  {
    UpdateStarts(s, key, version, mark);
    UsedKeys(s, key);
    assert forall a | a in names :: a in Elements(names);
    var s1 := ResourceStored(s, key, version, mark);
    PropagationCompletes(s1, key, version, s.resources[key], Users(s, key), names, gen);
    PropagationDelivers(s1, key, version, s.resources[key], Users(s, key), names, gen);
    assert Users(s, key) - Elements(names) == {};
  }

  /** And every node such an app selects is told that version, also when it is the one the app had. */
  lemma AdvancingUpdateTells(s: State, key: Key, version: string, mark: bool, names: seq<string>,
                             gen: string -> string, a: string, n: string)
    requires Consistent(s) && key in s.resources && LabelsKept(s, key, mark)
    requires Elements(names) == Users(s, key) && Above(version, s.resources[key])
    requires a in s.apps && key in Keys(s.apps[a].volumes)
    requires n in s.nodes && Selects(s.matches, s.apps[a].selector, s.nodes[n])
    ensures var s' := ResourceUpdated(s, key, version, mark, names, gen).state;
            && n in s'.shadows && s'.shadows[n].Some?
            && AppInfo(a, gen(a)) in AppInfos(s'.shadows[n].value, s.apps[a].system)
  {
    AdvancingUpdate(s, key, version, mark, names, gen);
    UsedKeys(s, key);
    var s', system := ResourceUpdated(s, key, version, mark, names, gen).state, s.apps[a].system;
    assert s'.apps[a].version == gen(a) && s'.apps[a].system == system;
    assert DesireExact(s'.matches, s'.apps, s'.nodes[n], s'.shadows[n]);
    assert ListExact(s'.matches, s'.apps, s'.nodes[n], s'.shadows[n].value, system);
    assert AppInfo(a, gen(a)) in Wanted(s'.matches, s'.apps, s'.nodes[n], system);
    assert AppInfo(a, gen(a)) in Elements(AppInfos(s'.shadows[n].value, system));
  }

  /** A new version that reaches no app is harmless exactly when it is the old one or nobody uses the resource. */
  lemma StoredConsistentIff(s: State, key: Key, version: string, mark: bool)
    requires Consistent(s) && key in s.resources
    ensures Consistent(ResourceStored(s, key, version, mark)) <==> version == s.resources[key] || Users(s, key) == {}
  {
    var s1 := ResourceStored(s, key, version, mark);
    if version == s.resources[key] {
      assert s1.resources == s.resources;
    } else {
      UsedKeys(s, key);
      if a :| a in Users(s, key) {
        StaleReferenceShows(s.apps[a].volumes, s.resources, key, version);
      } else {
        forall a | a in s.apps ensures Current(s.apps[a].volumes, s1.resources) {
          UnusedKeyUnnoticed(s, key, s1.resources, a);
        }
      }
    }
  }

  lemma IdleUpdateConsistentIff(s: State, key: Key, version: string, mark: bool)
    requires Consistent(s) && key in s.resources && !Above(version, s.resources[key])
    ensures Consistent(ResourceStored(s, key, version, mark)) <==> VersionAdvances(s, key, version)
  {
    StoredConsistentIff(s, key, version, mark);
  }

  /** Editing a certificate or registry stores a new version without telling the apps that mount it. */
  lemma SecretEditedConsistentIff(s: State, name: string, version: string, mark: bool)
    requires Consistent(s)
    ensures var key := Key(Secret, name);
            Consistent(SecretEdited(s, name, version, mark).state) <==>
            (key in s.resources ==> version == s.resources[key] || Users(s, key) == {})
  {
    if Key(Secret, name) in s.resources {
      StoredConsistentIff(s, Key(Secret, name), version, mark);
    }
  }

  lemma ResourceCreatedConsistent(s: State, key: Key, version: string, mark: bool)
    requires Consistent(s)
    ensures Consistent(ResourceCreated(s, key, version, mark).state)
  {
    if key !in s.resources {
      forall a | a in s.apps ensures Current(s.apps[a].volumes, s.resources[key := version]) {
        UnusedKeyUnnoticed(s, key, s.resources[key := version], a);
      }
    }
  }

  /** The guard on deletion is what keeps every reference resolvable: deleting is refused exactly
      while some app refers to the resource. */
  lemma ResourceDeletedConsistent(s: State, key: Key)
    requires Consistent(s)
    ensures Consistent(ResourceDeleted(s, key).state)
    ensures ResourceDeleted(s, key).outcome.Fail? <==> exists a :: a in s.apps && key in Keys(s.apps[a].volumes)
  {
    UsedKeys(s, key);
    if Users(s, key) != {} {
      var a :| a in Users(s, key);
      assert a in s.apps && key in Keys(s.apps[a].volumes);
    } else if key in s.resources {
      forall a | a in s.apps ensures Current(s.apps[a].volumes, s.resources - {key}) {
        UnusedKeyUnnoticed(s, key, s.resources - {key}, a);
      }
    }
  }
}
