/** Node operations, which rescan all applications, and the agreement between that rescan and
    the incremental edits made when one application changes. */
module NodeOperations {
  import opened Collections
  import opened Model
  import opened AppLists
  import opened Namespace
  import opened Consistency

  // ----- the rescan computes the wanted lists -----

  ghost function WantedAmong(s: State, names: set<string>, labels: Labels, system: bool): set<AppInfo> {
    set a | a in names && a in s.apps && s.apps[a].system == system && Selects(s.matches, s.apps[a].selector, labels)
      :: AppInfo(a, s.apps[a].version)
  }

  lemma WantedAmongOneMore(s: State, names: set<string>, a: string, labels: Labels, system: bool)
    ensures WantedAmong(s, names + {a}, labels, system)
         == WantedAmong(s, names, labels, system) +
            (if a in s.apps && s.apps[a].system == system && Selects(s.matches, s.apps[a].selector, labels)
             then {AppInfo(a, s.apps[a].version)} else {})
  {
  }

  lemma {:induction false} RematchedAmong(s: State, order: seq<string>, labels: Labels, system: bool)
    requires NoDuplicates(order) && forall a | a in s.apps :: s.apps[a].name == a
    ensures Exactly(Rematched(s, order, labels, system), WantedAmong(s, Elements(order), labels, system))
  {
    if order != [] {
      var init, last := order[..|order| - 1], order[|order| - 1];
      assert order == init + [last] && last !in init;
      assert Elements(order) == Elements(init) + {last};
      RematchedAmong(s, init, labels, system);
      WantedAmongOneMore(s, Elements(init), last, labels, system);
      forall x | x in Rematched(s, init, labels, system) ensures x.name != last {
        assert x in WantedAmong(s, Elements(init), labels, system);
      }
    }
  }

  lemma RematchedExact(s: State, order: seq<string>, labels: Labels, system: bool)
    requires Lists(order, s.apps.Keys) && forall a | a in s.apps :: s.apps[a].name == a
    ensures Exactly(Rematched(s, order, labels, system), Wanted(s.matches, s.apps, labels, system))
  {
    RematchedAmong(s, order, labels, system);
    assert WantedAmong(s, Elements(order), labels, system) == Wanted(s.matches, s.apps, labels, system);
  }

  lemma RematchedDesireExact(s: State, order: seq<string>, labels: Labels, d: Option<Desire>)
    requires Lists(order, s.apps.Keys) && forall a | a in s.apps :: s.apps[a].name == a
    requires d.Some? ==> d.value.Keys <= {APPS, SYSAPPS, NODE_PROPS}
    ensures DesireExact(s.matches, s.apps, labels, Some(Merged(d, RematchedDesire(s, order, labels))))
  {
    RematchedExact(s, order, labels, false);
    RematchedExact(s, order, labels, true);
    var r := Merged(d, RematchedDesire(s, order, labels));
    assert AppInfos(r, false) == Rematched(s, order, labels, false);
    assert AppInfos(r, true) == Rematched(s, order, labels, true);
  }

  // ----- fast refines simple -----

  /** In a consistent state a rescan of any node, in whatever order the table is listed, yields a
      permutation of the lists the incremental edits left, and the same index row. */
  lemma RescanAgrees(s: State, n: string, order: seq<string>)
    requires Consistent(s) && n in s.nodes && Lists(order, s.apps.Keys)
    ensures forall system :: multiset(Rematched(s, order, s.nodes[n], system))
                          == multiset(AppInfos(s.shadows[n].value, system))
    ensures Selecting(s, s.nodes[n]) == set p | p in s.placed && p.1 == n :: p.0
  {
    forall a | a in s.apps ensures s.apps[a].name == a { assert RowValid(s.apps, a); }
    assert DesireExact(s.matches, s.apps, s.nodes[n], s.shadows[n]);
    forall system
      ensures multiset(Rematched(s, order, s.nodes[n], system)) == multiset(AppInfos(s.shadows[n].value, system))
    {
      RematchedExact(s, order, s.nodes[n], system);
      assert ListExact(s.matches, s.apps, s.nodes[n], s.shadows[n].value, system);
      SameElementsPermute(Rematched(s, order, s.nodes[n], system), AppInfos(s.shadows[n].value, system));
    }
    var row := set p | p in s.placed && p.1 == n :: p.0;
    forall a | a in Selecting(s, s.nodes[n]) ensures a in row { assert (a, n) in s.placed && (a, n).1 == n; }
  }

  /** Rescanning a node whose labels have not changed changes nothing but that node's desire, */
  lemma RescanTouchesOneDesire(s: State, n: string, order: seq<string>)
    requires Consistent(s) && n in s.nodes && Lists(order, s.apps.Keys)
    ensures NodeUpdated(s, n, s.nodes[n], order)
         == Step(s.(shadows := s.shadows[n := Some(Merged(s.shadows[n], RematchedDesire(s, order, s.nodes[n])))]), Pass)
  {
    RescanAgrees(s, n, order);
    assert s.nodes[n := s.nodes[n]] == s.nodes;
    assert s.(nodes := s.nodes[n := s.nodes[n]]) == s;
    ColumnUnchanged(s.placed, n, Selecting(s, s.nodes[n]));
  }

  ghost predicate SameUpToOrder(d: Desire, d': Desire) {
    && d'.Keys == d.Keys
    && (forall k | k in d && k != APPS && k != SYSAPPS :: d'[k] == d[k])
    && (forall system :: multiset(AppInfos(d', system)) == multiset(AppInfos(d, system)))
  }

  lemma MergedParts(d: Desire, user: seq<AppInfo>, sys: seq<AppInfo>)
    requires APPS in d && SYSAPPS in d
    requires multiset(user) == multiset(AppInfos(d, false)) && multiset(sys) == multiset(AppInfos(d, true))
    ensures SameUpToOrder(d, d + map[APPS := Infos(user), SYSAPPS := Infos(sys)])
  {
    var d' := d + map[APPS := Infos(user), SYSAPPS := Infos(sys)];
    assert AppInfos(d', false) == user && AppInfos(d', true) == sys;
  }

  /** and in that desire nothing but the order within the two app lists. */
  lemma RescanReordersOnly(s: State, n: string, order: seq<string>)
    requires Consistent(s) && n in s.nodes && Lists(order, s.apps.Keys)
    ensures SameUpToOrder(s.shadows[n].value, Merged(s.shadows[n], RematchedDesire(s, order, s.nodes[n])))
  {
    RescanAgrees(s, n, order);
    assert DesireExact(s.matches, s.apps, s.nodes[n], s.shadows[n]);
    MergedParts(s.shadows[n].value, Rematched(s, order, s.nodes[n], false), Rematched(s, order, s.nodes[n], true));
  }

  lemma ColumnUnchanged(rel: set<(string, string)>, b: string, col: set<string>)
    requires col == set p | p in rel && p.1 == b :: p.0
    ensures WithColumn(rel, b, col) == rel
  {
    forall p ensures p in WithColumn(rel, b, col) <==> p in rel {
      if p in rel && p.1 == b { assert p.0 in col; assert p == (p.0, b); }
    }
  }

  // ----- update -----

  lemma PlacementWithNode(m: Matcher, apps: Apps, nodes: Nodes, n: string, labels: Labels, col: set<string>)
    requires col == set a | a in apps && Selects(m, apps[a].selector, labels)
    ensures Placement(m, apps, nodes[n := labels]) == WithColumn(Placement(m, apps, nodes), n, col)
  {
    forall p ensures p in Placement(m, apps, nodes[n := labels])
                <==> p in WithColumn(Placement(m, apps, nodes), n, col) {}
  }

  lemma SelectingNames(s: State, labels: Labels)
    requires forall a | a in s.apps :: s.apps[a].name == a
    ensures Selecting(s, labels) == set a | a in s.apps && Selects(s.matches, s.apps[a].selector, labels)
  {
    var r := set a | a in s.apps && Selects(s.matches, s.apps[a].selector, labels);
    forall x | x in r ensures x in Selecting(s, labels) { assert s.apps[x].name == x; }
  }

  lemma NodePlacedConsistent(s: State, s1: State, n: string, labels: Labels, order: seq<string>, d: Option<Desire>)
    requires s1.nodes == s.nodes[n := labels] && s1.shadows == s.shadows
    requires s1.matches == s.matches && s1.apps == s.apps && s1.placed == s.placed
    requires s1.resources == s.resources && s1.uses == s.uses
    requires Consistent(s) && Lists(order, s.apps.Keys)
    requires d.Some? ==> d.value.Keys <= {APPS, SYSAPPS, NODE_PROPS}
    ensures Consistent(NodePlaced(s1, n, labels, Merged(d, RematchedDesire(s1, order, labels))))
  {
    forall a | a in s.apps ensures s.apps[a].name == a { assert RowValid(s.apps, a); }
    RematchedDesireExact(s1, order, labels, d);
    SelectingNames(s1, labels);
    PlacementWithNode(s.matches, s.apps, s.nodes, n, labels, Selecting(s1, labels));
    var s' := NodePlaced(s1, n, labels, Merged(d, RematchedDesire(s1, order, labels)));
    forall m | m in s'.nodes ensures DesireExact(s'.matches, s'.apps, s'.nodes[m], s'.shadows[m]) {
      if m != n { assert DesireExact(s.matches, s.apps, s.nodes[m], s.shadows[m]); }
    }
  }

  lemma NodeUpdatedConsistent(s: State, n: string, labels: Labels, order: seq<string>)
    requires Consistent(s) && Lists(order, s.apps.Keys)
    ensures Consistent(NodeUpdated(s, n, labels, order).state)
  {
    if n in s.nodes {
      assert DesireExact(s.matches, s.apps, s.nodes[n], s.shadows[n]);
      var s1 := s.(nodes := s.nodes[n := labels]);
      RematchIgnoresNodes(s, s1, order, labels);
      NodePlacedConsistent(s, s1, n, labels, order, s.shadows[n]);
    }
  }

  /** The desire of a node holds exactly the apps that select the labels, and the rest of it is what it was. */
  ghost predicate Rescanned(m: Matcher, apps: Apps, labels: Labels, was: Desire, d: Desire) {
    && (forall system :: Exactly(AppInfos(d, system), Wanted(m, apps, labels, system)))
    && (forall k | k != APPS && k != SYSAPPS :: (k in d <==> k in was) && (k in was ==> d[k] == was[k]))
  }

  lemma MergedRescanned(s: State, order: seq<string>, labels: Labels, was: Desire)
    requires Lists(order, s.apps.Keys) && forall a | a in s.apps :: s.apps[a].name == a
    ensures Rescanned(s.matches, s.apps, labels, was, Merged(Some(was), RematchedDesire(s, order, labels)))
  {
    var d := Merged(Some(was), RematchedDesire(s, order, labels));
    forall system ensures Exactly(AppInfos(d, system), Wanted(s.matches, s.apps, labels, system)) {
      RematchedExact(s, order, labels, system);
      assert AppInfos(d, system) == Rematched(s, order, labels, system);
    }
  }

  lemma NodeUpdatedParts(s: State, n: string, labels: Labels, order: seq<string>)
    requires n in s.nodes && n in s.shadows
    ensures var r := NodeUpdated(s, n, labels, order);
            && r.outcome.Pass? && r.state.nodes == s.nodes[n := labels]
            && r.state == s.(nodes := r.state.nodes, shadows := r.state.shadows, placed := r.state.placed)
            && r.state.shadows == s.shadows[n := Some(Merged(s.shadows[n], RematchedDesire(s, order, labels)))]
  {
  }

  /** Updating a node gives it the labels asked for and exactly the apps that select those; the rest of its
      desire, every other desire and every other table stay. */
  lemma NodeUpdatedTakesLabels(s: State, n: string, labels: Labels, order: seq<string>)
    requires Consistent(s) && n in s.nodes && Lists(order, s.apps.Keys)
    ensures var r := NodeUpdated(s, n, labels, order);
            && r.outcome.Pass? && r.state.nodes == s.nodes[n := labels]
            && r.state == s.(nodes := r.state.nodes, shadows := r.state.shadows, placed := r.state.placed)
    ensures var shadows := NodeUpdated(s, n, labels, order).state.shadows;
            && shadows.Keys == s.shadows.Keys && (forall m | m in s.shadows && m != n :: shadows[m] == s.shadows[m])
            && n in shadows && shadows[n].Some? && s.shadows[n].Some?
            && Rescanned(s.matches, s.apps, labels, s.shadows[n].value, shadows[n].value)
  {
    assert DesireExact(s.matches, s.apps, s.nodes[n], s.shadows[n]);
    forall a | a in s.apps ensures s.apps[a].name == a { assert RowValid(s.apps, a); }
    NodeUpdatedParts(s, n, labels, order);
    MergedRescanned(s, order, labels, s.shadows[n].value);
  }

  /** A node whose desire row is missing is refused only after its labels have been stored and its index rows
      cleared. */
  lemma MissingRowNoticedLate(s: State, n: string, labels: Labels, order: seq<string>)
    requires n in s.nodes && n !in s.shadows
    ensures var r := NodeUpdated(s, n, labels, order);
            && r.outcome == Fail(NotFound) && r.state.nodes == s.nodes[n := labels]
            && (forall p :: p in r.state.placed <==> p in s.placed && p.1 != n)
            && r.state == s.(nodes := r.state.nodes, placed := r.state.placed)
  {
  }

  lemma PropsSetConsistent(s: State, n: string, props: map<string, string>)
    requires Consistent(s)
    ensures Consistent(PropsSet(s, n, props).state)
  {
    var s' := PropsSet(s, n, props).state;
    forall m | m in s'.nodes ensures DesireExact(s'.matches, s'.apps, s'.nodes[m], s'.shadows[m]) {
      assert DesireExact(s.matches, s.apps, s.nodes[m], s.shadows[m]);
    }
  }

  // ----- delete -----

  /** Every system app on the node is on that node alone. */
  ghost predicate SystemAppsPrivate(s: State, n: string)
    requires n in s.nodes
  {
    forall a, m | a in s.apps && s.apps[a].system && m in s.nodes && m != n ::
      Selects(s.matches, s.apps[a].selector, s.nodes[n]) ==> !Selects(s.matches, s.apps[a].selector, s.nodes[m])
  }

  lemma SystemAppsAre(s: State, n: string)
    requires Consistent(s) && n in s.nodes
    ensures Elements(SystemApps(s, n))
         == set a | a in s.apps && s.apps[a].system && Selects(s.matches, s.apps[a].selector, s.nodes[n])
  {
    assert DesireExact(s.matches, s.apps, s.nodes[n], s.shadows[n]);
    var infos, names := AppInfos(s.shadows[n].value, true), SystemApps(s, n);
    assert Elements(infos) == Wanted(s.matches, s.apps, s.nodes[n], true);
    var r := set a | a in s.apps && s.apps[a].system && Selects(s.matches, s.apps[a].selector, s.nodes[n]);
    forall a | a in r ensures a in names {
      assert AppInfo(a, s.apps[a].version) in Elements(infos);
      var i :| 0 <= i < |infos| && infos[i] == AppInfo(a, s.apps[a].version);
      assert names[i] == a;
    }
    forall a | a in names ensures a in r {
      var i :| 0 <= i < |names| && names[i] == a;
      assert infos[i] in Elements(infos);
    }
  }

  // ----- resources that go with deleted system apps -----

  ghost predicate Submap(r: map<Key, string>, r': map<Key, string>) {
    forall k | k in r' :: k in r && r'[k] == r[k]
  }

  ghost predicate SingleSource(vs: seq<Volume>) {
    forall i | 0 <= i < |vs| :: vs[i].config.None? || vs[i].secret.None?
  }

  lemma {:induction false} SweptKeysOf(resources: map<Key, string>, labelled: set<Key>, vs: seq<Volume>)
    ensures Submap(resources, Swept(resources, labelled, vs))
    ensures resources.Keys - Swept(resources, labelled, vs).Keys <= labelled * Keys(vs)
  {
    if vs == [] {
      assert Swept(resources, labelled, vs) == resources;
    } else {
      SweptKeysOf(resources, labelled, vs[..|vs| - 1]);
      VolumeSweptKeys(Swept(resources, labelled, vs[..|vs| - 1]), labelled, vs[|vs| - 1]);
    }
  }

  lemma {:induction false} SingleSourceSwept(resources: map<Key, string>, labelled: set<Key>, vs: seq<Volume>)
    requires SingleSource(vs)
    ensures Swept(resources, labelled, vs) == resources - labelled * Keys(vs)
  {
    if vs == [] {
      assert labelled * Keys(vs) == {};
    } else {
      var init, last := vs[..|vs| - 1], vs[|vs| - 1];
      assert SingleSource(init) by { assert forall i | 0 <= i < |init| :: init[i] == vs[i]; }
      SingleSourceSwept(resources, labelled, init);
      VolumeSweptKeys(Swept(resources, labelled, init), labelled, last);
      assert labelled * Keys(vs) == labelled * Keys(init) + labelled * VolumeKeys(last);
    }
  }

  lemma VolumeSweptKeys(resources: map<Key, string>, labelled: set<Key>, v: Volume)
    ensures Submap(resources, VolumeSwept(resources, labelled, v))
    ensures resources.Keys - VolumeSwept(resources, labelled, v).Keys <= labelled * VolumeKeys(v)
    ensures v.config.None? || v.secret.None? ==>
              VolumeSwept(resources, labelled, v) == resources - labelled * VolumeKeys(v)
  {
  }

  /** A volume with two sources: nothing goes unless its config is there and labelled, and then the config goes
      and the secret too if it is labelled. */
  lemma TwoSourcesSwept(resources: map<Key, string>, labelled: set<Key>, v: Volume, key: Key)
    requires v.config.Some? && v.secret.Some? && key in resources
    ensures key !in VolumeSwept(resources, labelled, v) <==>
            var config := Key(Config, v.config.value.name);
            && config in resources && config in labelled
            && (key == config || (key == Key(Secret, v.secret.value.name) && key in labelled))
  {
  }

  /** What is left of the resources once the named apps have been deleted in this order. */
  ghost function ResourcesSwept(apps: Apps, resources: map<Key, string>, labelled: set<Key>, names: seq<string>)
    : map<Key, string>
  {
    if names == [] then resources
    else
      var init, name := names[..|names| - 1], names[|names| - 1];
      var rest := ResourcesSwept(apps, resources, labelled, init);
      if name in apps && name !in init then Swept(rest, labelled, apps[name].volumes) else rest
  }

  /** The state once the named apps have been deleted. */
  ghost function AppsGone(s: State, names: seq<string>): State {
    s.(apps := s.apps - Elements(names), uses := UsesWithout(s, names),
       resources := ResourcesSwept(s.apps, s.resources, s.labelled, names))
  }

  ghost function UsesWithout(s: State, names: seq<string>): set<(string, Key)> {
    set p | p in s.uses && !(p.0 in Elements(names) && p.0 in s.apps)
  }

  lemma UsesWithoutNext(s: State, init: seq<string>, last: string)
    ensures last in s.apps && last !in init ==>
              UsesWithout(s, init + [last]) == WithRow(UsesWithout(s, init), last, {})
    ensures last !in s.apps || last in init ==> UsesWithout(s, init + [last]) == UsesWithout(s, init)
  {
  }

  lemma {:induction false} SysAppsDeletedParts(s: State, names: seq<string>)
    ensures SysAppsDeleted(s, names) == AppsGone(s, names)
  {
    if names == [] {
      assert s.apps - Elements(names) == s.apps && UsesWithout(s, names) == s.uses;
    } else {
      var init, last := names[..|names| - 1], names[|names| - 1];
      assert names == init + [last];
      assert Elements(names) == Elements(init) + {last};
      SysAppsDeletedParts(s, init);
      UsesWithoutNext(s, init, last);
      assert s.apps - Elements(init) - {last} == s.apps - Elements(names);
    }
  }

  /** What the named apps mount. */
  ghost function Mounts(apps: Apps, names: seq<string>): set<Key> {
    set a, k | a in names && a in apps && k in Keys(apps[a].volumes) :: k
  }

  lemma MountsNext(apps: Apps, names: seq<string>)
    requires names != []
    ensures var init, last := names[..|names| - 1], names[|names| - 1];
            Mounts(apps, names) == Mounts(apps, init) + if last in apps then Keys(apps[last].volumes) else {}
  {
    var init, last := names[..|names| - 1], names[|names| - 1];
    assert names == init + [last];
  }

  ghost predicate SingleSources(apps: Apps, names: seq<string>) {
    forall a | a in names && a in apps :: SingleSource(apps[a].volumes)
  }

  /** Only labelled resources that the deleted apps mount go. */
  lemma {:induction false} SweptAreMounted(apps: Apps, resources: map<Key, string>, labelled: set<Key>,
                                           names: seq<string>)
    ensures Submap(resources, ResourcesSwept(apps, resources, labelled, names))
    ensures resources.Keys - ResourcesSwept(apps, resources, labelled, names).Keys <= labelled * Mounts(apps, names)
  {
    if names != [] {
      var init, last := names[..|names| - 1], names[|names| - 1];
      SweptAreMounted(apps, resources, labelled, init);
      MountsNext(apps, names);
      assert labelled * Mounts(apps, init) <= labelled * Mounts(apps, names);
      if last in apps && last !in init {
        SweptKeysOf(ResourcesSwept(apps, resources, labelled, init), labelled, apps[last].volumes);
        assert labelled * Keys(apps[last].volumes) <= labelled * Mounts(apps, names);
      }
    }
  }

  /** And when no volume has two sources, exactly those go. */
  lemma {:induction false} SweptExactly(apps: Apps, resources: map<Key, string>, labelled: set<Key>, names: seq<string>)
    requires SingleSources(apps, names)
    ensures ResourcesSwept(apps, resources, labelled, names) == resources - labelled * Mounts(apps, names)
  {
    if names == [] {
      assert Mounts(apps, names) == {};
    } else {
      var init, last := names[..|names| - 1], names[|names| - 1];
      assert names == init + [last];
      SweptExactly(apps, resources, labelled, init);
      MountsNext(apps, names);
      if last in apps && last !in init {
        var mounted := Keys(apps[last].volumes);
        SingleSourceSwept(ResourcesSwept(apps, resources, labelled, init), labelled, apps[last].volumes);
        assert labelled * Mounts(apps, names) == labelled * Mounts(apps, init) + labelled * mounted;
      } else if last in apps {
        assert Keys(apps[last].volumes) <= Mounts(apps, init);
      }
    }
  }

  ghost function SweptKeys(s: State, n: string): set<Key> {
    s.resources.Keys - ResourcesSwept(s.apps, s.resources, s.labelled, SystemApps(s, n)).Keys
  }

  /** No app that stays mounts a resource that goes. */
  ghost predicate SweptUnused(s: State, n: string) {
    forall a | a in s.apps && a !in SystemApps(s, n) :: Keys(s.apps[a].volumes) !! SweptKeys(s, n)
  }

  lemma RowsExactSweptIff(apps: Apps, resources: map<Key, string>, resources': map<Key, string>)
    requires RowsExact(apps, resources) && Submap(resources, resources')
    ensures RowsExact(apps, resources') <==>
            forall a | a in apps :: Keys(apps[a].volumes) !! (resources.Keys - resources'.Keys)
  {
    forall a | a in apps
      ensures Current(apps[a].volumes, resources') <==> Keys(apps[a].volumes) !! (resources.Keys - resources'.Keys)
    {
      assert RowValid(apps, a) && Current(apps[a].volumes, resources);
      if Keys(apps[a].volumes) <= resources'.Keys {
        LatestIgnores(apps[a].volumes, resources, resources');
      }
    }
  }

  lemma WantedWithoutAll(m: Matcher, apps: Apps, labels: Labels, system: bool, names: set<string>)
    ensures Wanted(m, apps - names, labels, system) == set w | w in Wanted(m, apps, labels, system) && w.name !in names
  {
    forall w | w in Wanted(m, apps, labels, system) && w.name !in names
      ensures w in Wanted(m, apps - names, labels, system)
    {
      assert w.name in apps - names;
    }
  }

  lemma DesireUnaffected(m: Matcher, apps: Apps, labels: Labels, d: Option<Desire>, names: set<string>)
    requires DesireExact(m, apps, labels, d)
    requires forall a | a in names && a in apps :: !Selects(m, apps[a].selector, labels)
    ensures DesireExact(m, apps - names, labels, d)
  {
    forall system ensures Wanted(m, apps - names, labels, system) == Wanted(m, apps, labels, system) {
      WantedWithoutAll(m, apps, labels, system, names);
    }
  }

  lemma DesireLeftBehind(m: Matcher, apps: Apps, labels: Labels, d: Option<Desire>, names: set<string>, a: string)
    requires DesireExact(m, apps, labels, d)
    requires a in names && a in apps && Selects(m, apps[a].selector, labels)
    ensures !DesireExact(m, apps - names, labels, d)
  {
    var system := apps[a].system;
    var info := AppInfo(a, apps[a].version);
    assert info in Wanted(m, apps, labels, system);
    assert info in Elements(AppInfos(d.value, system));
    assert info !in Wanted(m, apps - names, labels, system);
    assert !ListExact(m, apps - names, labels, d.value, system);
  }

  lemma IndexesWithout(m: Matcher, apps: Apps, nodes: Nodes, n: string, names: set<string>)
    ensures Placement(m, apps - names, nodes - {n})
         == set p | p in Placement(m, apps, nodes) && p.1 != n && p.0 !in names
    ensures References(apps - names) == set p | p in References(apps) && p.0 !in names
  {
    forall p ensures p in Placement(m, apps - names, nodes - {n})
                <==> p in Placement(m, apps, nodes) && p.1 != n && p.0 !in names {}
    forall p ensures p in References(apps - names) <==> p in References(apps) && p.0 !in names {}
  }

  /** The state after a deletion, table by table. */
  lemma NodeDeletedParts(s: State, n: string)
    requires Consistent(s) && n in s.nodes
    ensures var s', names := NodeDeleted(s, n).state, Elements(SystemApps(s, n));
            && s'.matches == s.matches && s'.nodes == s.nodes - {n} && s'.shadows == s.shadows - {n}
            && s'.apps == s.apps - names && s'.crons == s.crons && s'.labelled == s.labelled
            && s'.placed == Placement(s'.matches, s'.apps, s'.nodes) && s'.uses == References(s'.apps)
            && s'.resources == ResourcesSwept(s.apps, s.resources, s.labelled, SystemApps(s, n))
  {
    var sys := SystemApps(s, n);
    SystemAppsAre(s, n);
    var s1 := s.(nodes := s.nodes - {n}, shadows := s.shadows - {n}, placed := WithColumn(s.placed, n, {}));
    SysAppsDeletedParts(s1, sys);
    IndexesWithout(s.matches, s.apps, s.nodes, n, Elements(sys));
  }

  lemma DesiresAfterDeletionIff(s: State, n: string)
    requires Consistent(s) && n in s.nodes
    ensures DesiresExact(s.matches, s.apps - Elements(SystemApps(s, n)), s.nodes - {n}, s.shadows - {n})
            <==> SystemAppsPrivate(s, n)
  {
    SystemAppsAre(s, n);
    if SystemAppsPrivate(s, n) {
      OtherDesiresExact(s, n, Elements(SystemApps(s, n)));
    } else {
      SharedDesireLeft(s, n, Elements(SystemApps(s, n)));
    }
  }

  lemma OtherDesiresExact(s: State, n: string, names: set<string>)
    requires DesiresExact(s.matches, s.apps, s.nodes, s.shadows) && n in s.nodes && SystemAppsPrivate(s, n)
    requires forall a | a in names ::
               a in s.apps && s.apps[a].system && Selects(s.matches, s.apps[a].selector, s.nodes[n])
    ensures DesiresExact(s.matches, s.apps - names, s.nodes - {n}, s.shadows - {n})
  {
    forall m | m in s.nodes && m != n ensures DesireExact(s.matches, s.apps - names, s.nodes[m], s.shadows[m]) {
      DesireUnaffected(s.matches, s.apps, s.nodes[m], s.shadows[m], names);
    }
  }

  lemma SharedDesireLeft(s: State, n: string, names: set<string>)
    requires DesiresExact(s.matches, s.apps, s.nodes, s.shadows) && n in s.nodes && !SystemAppsPrivate(s, n)
    requires names == set a | a in s.apps && s.apps[a].system && Selects(s.matches, s.apps[a].selector, s.nodes[n])
    ensures !DesiresExact(s.matches, s.apps - names, s.nodes - {n}, s.shadows - {n})
  {
    var a, m :| a in s.apps && s.apps[a].system && m in s.nodes && m != n &&
      Selects(s.matches, s.apps[a].selector, s.nodes[n]) && Selects(s.matches, s.apps[a].selector, s.nodes[m]);
    DesireLeftBehind(s.matches, s.apps, s.nodes[m], s.shadows[m], names, a);
    var nodes', shadows' := s.nodes - {n}, s.shadows - {n};
    assert !DesireExact(s.matches, s.apps - names, nodes'[m], shadows'[m]);
  }

  lemma RowsAfterDeletionIff(s: State, n: string)
    requires Consistent(s)
    ensures RowsExact(s.apps - Elements(SystemApps(s, n)),
                      ResourcesSwept(s.apps, s.resources, s.labelled, SystemApps(s, n)))
            <==> SweptUnused(s, n)
  {
    var sys := SystemApps(s, n);
    var apps', resources' := s.apps - Elements(sys), ResourcesSwept(s.apps, s.resources, s.labelled, sys);
    SweptAreMounted(s.apps, s.resources, s.labelled, sys);
    RowsExactWithout(s.apps, s.resources, Elements(sys));
    RowsExactSweptIff(apps', s.resources, resources');
    assert forall a :: a in apps' <==> a in s.apps && a !in sys;
    assert forall a | a in apps' :: apps'[a] == s.apps[a];
  }

  /** Deleting a node also deletes the system apps it desired and the labelled resources they mount,
      without touching other desires or asking who else mounts them: the namespace stays consistent
      exactly when those apps were on this node only and no other app mounts those resources. */
  lemma NodeDeletedConsistentIff(s: State, n: string)
    requires Consistent(s) && n in s.nodes
    ensures Consistent(NodeDeleted(s, n).state) <==> SystemAppsPrivate(s, n) && SweptUnused(s, n)
  {
    NodeDeletedParts(s, n);
    DesiresAfterDeletionIff(s, n);
    RowsAfterDeletionIff(s, n);
  }

  /** A labelled resource that a system app of the node and an app that stays both mount is lost,
      unless a volume with two sources kept it from being cleaned. */
  lemma SharedResourceLost(s: State, n: string, a: string, b: string, key: Key)
    requires Consistent(s) && n in s.nodes && SingleSources(s.apps, SystemApps(s, n))
    requires a in s.apps && s.apps[a].system && Selects(s.matches, s.apps[a].selector, s.nodes[n])
    requires b in s.apps && !(s.apps[b].system && Selects(s.matches, s.apps[b].selector, s.nodes[n]))
    requires key in s.labelled && key in Keys(s.apps[a].volumes) && key in Keys(s.apps[b].volumes)
    ensures !SweptUnused(s, n)
  {
    var sys := SystemApps(s, n);
    SystemAppsAre(s, n);
    assert a in Elements(sys) && b !in Elements(sys);
    assert RowsExact(s.apps, s.resources) && Current(s.apps[b].volumes, s.resources);
    SweptExactly(s.apps, s.resources, s.labelled, sys);
    assert key in Mounts(s.apps, sys);
    assert key in SweptKeys(s, n);
    assert key in Keys(s.apps[b].volumes) * SweptKeys(s, n);
  }

  lemma NodeDeletedCrons(s: State, n: string)
    requires Consistent(s) && CronsExact(s)
    ensures CronsExact(NodeDeleted(s, n).state)
  {
    if n in s.nodes {
      NodeDeletedParts(s, n);
      SystemAppsAre(s, n);
      var names := Elements(SystemApps(s, n));
      WaitingWithout(s.apps, names);
      forall a | a in names ensures a !in Waiting(s.apps) { assert RowValid(s.apps, a); }
    }
  }

  // ----- create -----

  /** Agreement with the nodes as they were before a new one is placed. */
  ghost predicate ConsistentFor(s: State, nodes: Nodes) {
    && DesiresExact(s.matches, s.apps, nodes, s.shadows)
    && s.placed == Placement(s.matches, s.apps, nodes)
    && s.uses == References(s.apps)
    && RowsExact(s.apps, s.resources)
  }

  /** What the templates and random names promise of the apps generated for a node. */
  ghost predicate GeneratedWell(s: State, made: Made, gens: seq<App>) {
    && made.versions.Keys !! s.resources.Keys
    && (forall i | 0 <= i < |gens| :: gens[i].name !in s.apps && ValidNames(gens[i]) && !gens[i].cron.CronWait?)
    && (forall i, j | 0 <= i < j < |gens| :: gens[i].name != gens[j].name)
  }

  /** No generated app selects a node that was already there. */
  ghost predicate GeneratedPrivate(s: State, gens: seq<App>) {
    forall i, m | 0 <= i < |gens| && m in s.nodes :: !Selects(s.matches, gens[i].selector, s.nodes[m])
  }

  const NODE_NAME := "baetyl-node-name"

  /** The selector every shipped application template has. */
  function ByName(n: string): string {
    NODE_NAME + "=" + n
  }

  /** How the matcher treats that selector, and that requests label a node with its own name. */
  ghost predicate NamesSelect(s: State) {
    && (forall n, labels :: s.matches(ByName(n), labels) <==> NODE_NAME in labels && labels[NODE_NAME] == n)
    && (forall m | m in s.nodes :: NODE_NAME in s.nodes[m] && s.nodes[m][NODE_NAME] == m)
  }

  /** With the shipped templates creating a node always keeps the namespace consistent. */
  lemma ShippedTemplatesPrivate(s: State, n: string, gens: seq<App>)
    requires NamesSelect(s) && n !in s.nodes && forall i | 0 <= i < |gens| :: gens[i].selector == ByName(n)
    ensures GeneratedPrivate(s, gens)
  {
  }

  /** And apps generated for a node are on that node alone. */
  lemma ShippedAppsPrivate(s: State, n: string)
    requires NamesSelect(s) && n in s.nodes
    requires forall a | a in s.apps && s.apps[a].system && Selects(s.matches, s.apps[a].selector, s.nodes[n]) ::
               s.apps[a].selector == ByName(n)
    ensures SystemAppsPrivate(s, n)
  {
  }

  lemma RowUnplaced(s: State, nodes: Nodes, app: App)
    requires ConsistentFor(s, nodes) && app.name !in s.apps
    requires Keys(app.volumes) <= s.resources.Keys && ValidNames(app) && !app.cron.CronWait?
    requires Reached(s.matches, nodes, app.selector) == {}
    ensures ConsistentFor(RowCreated(s, app, app.version), nodes)
  {
    var row := app.(volumes := Latest(app.volumes, s.resources));
    LatestIsCurrent(app.volumes, s.resources);
    LatestKeepsNames(app, s.resources);
    DeploymentExact(s.matches, s.apps, nodes, s.shadows, row);
    assert Patched(s.shadows, {}, row, Refresh) == s.shadows;
    PlacementWith(s.matches, s.apps, nodes, row);
    assert WithRow(s.placed, app.name, {}) == s.placed;
    ReferencesWith(s.apps, row);
    RowsExactWith(s.apps, s.resources, row);
  }

  ghost function GeneratedNames(gens: seq<App>): set<string> {
    set i | 0 <= i < |gens| :: gens[i].name
  }

  lemma GeneratedNamesNext(gens: seq<App>)
    requires gens != []
    ensures GeneratedNames(gens) == GeneratedNames(gens[..|gens| - 1]) + {gens[|gens| - 1].name}
  {
    var init := gens[..|gens| - 1];
    forall x | x in GeneratedNames(gens) ensures x in GeneratedNames(init) + {gens[|gens| - 1].name} {
      var i :| 0 <= i < |gens| && gens[i].name == x;
      if i < |init| { assert init[i].name == x; }
    }
    forall x | x in GeneratedNames(init) ensures x in GeneratedNames(gens) {
      var i :| 0 <= i < |init| && init[i].name == x;
      assert gens[i].name == x;
    }
  }

  lemma {:induction false} RowsGeneratedShape(s: State, gens: seq<App>)
    ensures var r := RowsGenerated(s, gens);
            && r.state == s.(apps := r.state.apps, uses := r.state.uses)
            && (r.outcome.Pass? ==> r.state.apps.Keys == s.apps.Keys + GeneratedNames(gens))
  {
    if gens == [] {
      assert GeneratedNames(gens) == {};
    } else {
      RowsGeneratedShape(s, gens[..|gens| - 1]);
      GeneratedNamesNext(gens);
    }
  }

  lemma {:induction false} RowsGeneratedConsistent(s: State, nodes: Nodes, gens: seq<App>)
    requires ConsistentFor(s, nodes)
    requires forall i | 0 <= i < |gens| :: gens[i].name !in s.apps && ValidNames(gens[i]) && !gens[i].cron.CronWait?
    requires forall i, j | 0 <= i < j < |gens| :: gens[i].name != gens[j].name
    requires forall i | 0 <= i < |gens| :: Reached(s.matches, nodes, gens[i].selector) == {}
    ensures ConsistentFor(RowsGenerated(s, gens).state, nodes)
  {
    if gens != [] {
      var init, last := gens[..|gens| - 1], gens[|gens| - 1];
      RowsGeneratedConsistent(s, nodes, init);
      RowsGeneratedShape(s, init);
      var r := RowsGenerated(s, init);
      if r.outcome.Pass? && Keys(last.volumes) <= r.state.resources.Keys {
        assert last.name !in r.state.apps;
        RowUnplaced(r.state, nodes, last);
      }
    }
  }

  lemma {:induction false} RowsGeneratedRows(s: State, gens: seq<App>, i: nat)
    requires i < |gens| && RowsGenerated(s, gens).outcome.Pass?
    requires forall i, j | 0 <= i < j < |gens| :: gens[i].name != gens[j].name
    ensures var apps := RowsGenerated(s, gens).state.apps;
            && gens[i].name in apps && apps[gens[i].name].selector == gens[i].selector
            && apps[gens[i].name].system == gens[i].system
  {
    var init := gens[..|gens| - 1];
    if i < |init| {
      RowsGeneratedRows(s, init, i);
      assert init[i] == gens[i] && gens[i].name != gens[|gens| - 1].name;
    }
  }

  lemma {:induction false} RowsGeneratedWaiting(s: State, gens: seq<App>)
    requires forall i | 0 <= i < |gens| :: gens[i].name !in s.apps && !gens[i].cron.CronWait?
    ensures Waiting(RowsGenerated(s, gens).state.apps) == Waiting(s.apps)
  {
    if gens != [] {
      var init, last := gens[..|gens| - 1], gens[|gens| - 1];
      RowsGeneratedWaiting(s, init);
      var r := RowsGenerated(s, init);
      if r.outcome.Pass? && Keys(last.volumes) <= r.state.resources.Keys {
        WaitingWith(r.state.apps, last.(volumes := Latest(last.volumes, r.state.resources)));
        assert last.name !in Waiting(s.apps);
      }
    }
  }

  lemma FreshResourcesUnused(s: State, made: Made)
    requires RowsExact(s.apps, s.resources) && made.versions.Keys !! s.resources.Keys
    ensures RowsExact(s.apps, s.resources + made.versions)
  {
    forall a | a in s.apps ensures RowValid(s.apps, a) && Current(s.apps[a].volumes, s.resources + made.versions) {
      LatestIgnores(s.apps[a].volumes, s.resources, s.resources + made.versions);
    }
  }

  lemma UnlistedEntryMissing(m: Matcher, apps: Apps, apps': Apps, labels: Labels, d: Option<Desire>, a: string)
    requires DesireExact(m, apps, labels, d) && a !in apps
    requires a in apps' && Selects(m, apps'[a].selector, labels)
    ensures !DesireExact(m, apps', labels, d)
  {
    var system := apps'[a].system;
    var info := AppInfo(a, apps'[a].version);
    assert info in Wanted(m, apps', labels, system);
    assert info !in Wanted(m, apps, labels, system);
    assert !ListExact(m, apps', labels, d.value, system);
  }

  /** Creating a node adds its generated apps without touching other desires: the namespace stays
      consistent exactly when none of them selects a node that already exists. */
  lemma NodeCreatedConsistentIff(s: State, n: string, labels: Labels, made: Made,
                                 gens: seq<App>, order: seq<string>)
    requires Consistent(s) && GeneratedWell(s, made, gens)
    requires Lists(order, Generated(s, n, labels, made, gens).state.apps.Keys)
    ensures var r := NodeCreated(s, n, labels, made, gens, order);
            Consistent(r.state) <==> (r.outcome.Pass? ==> GeneratedPrivate(s, gens))
  {
    if NodeCreated(s, n, labels, made, gens, order).outcome.Pass? {
      if GeneratedPrivate(s, gens) {
        PrivateNodeCreated(s, n, labels, made, gens, order);
      } else {
        SharedNodeCreated(s, n, labels, made, gens, order);
      }
    }
  }

  lemma PrivateNodeCreated(s: State, n: string, labels: Labels, made: Made,
                           gens: seq<App>, order: seq<string>)
    requires Consistent(s) && GeneratedWell(s, made, gens) && GeneratedPrivate(s, gens)
    requires Lists(order, Generated(s, n, labels, made, gens).state.apps.Keys)
    requires NodeCreated(s, n, labels, made, gens, order).outcome.Pass?
    ensures Consistent(NodeCreated(s, n, labels, made, gens, order).state)
  {
    var s0 := NodeStarted(s, n, labels, made);
    var r := RowsGenerated(s0, gens);
    FreshResourcesUnused(s, made);
    RowsGeneratedConsistent(s0, s.nodes, gens);
    RowsGeneratedShape(s0, gens);
    NodePlacedConsistent(r.state.(nodes := s.nodes), r.state, n, labels, order, None);
  }

  lemma NodeCreatedParts(s: State, n: string, labels: Labels, made: Made, gens: seq<App>, order: seq<string>)
    requires NodeCreated(s, n, labels, made, gens, order).outcome.Pass?
    ensures Generated(s, n, labels, made, gens).outcome.Pass?
    ensures var s' := NodeCreated(s, n, labels, made, gens, order).state;
            && s'.matches == s.matches && s'.apps == Generated(s, n, labels, made, gens).state.apps
            && s'.crons == s.crons
            && (forall m | m in s.nodes :: m in s'.nodes && s'.nodes[m] == s.nodes[m])
            && (forall m | m in s.shadows :: m in s'.shadows && s'.shadows[m] == s.shadows[m])
  {
    RowsGeneratedShape(NodeStarted(s, n, labels, made), gens);
  }

  lemma SharedNodeCreated(s: State, n: string, labels: Labels, made: Made,
                          gens: seq<App>, order: seq<string>)
    requires Consistent(s) && GeneratedWell(s, made, gens) && !GeneratedPrivate(s, gens)
    requires NodeCreated(s, n, labels, made, gens, order).outcome.Pass?
    ensures !Consistent(NodeCreated(s, n, labels, made, gens, order).state)
  {
    var i, m :| 0 <= i < |gens| && m in s.nodes && Selects(s.matches, gens[i].selector, s.nodes[m]);
    NodeCreatedParts(s, n, labels, made, gens, order);
    RowsGeneratedRows(NodeStarted(s, n, labels, made), gens, i);
    var s' := NodeCreated(s, n, labels, made, gens, order).state;
    UnlistedEntryMissing(s.matches, s.apps, s'.apps, s.nodes[m], s.shadows[m], gens[i].name);
    assert !DesireExact(s'.matches, s'.apps, s'.nodes[m], s'.shadows[m]);
  }

  lemma NodeCreatedCrons(s: State, n: string, labels: Labels, made: Made, gens: seq<App>, order: seq<string>)
    requires CronsExact(s) && GeneratedWell(s, made, gens)
    ensures CronsExact(NodeCreated(s, n, labels, made, gens, order).state)
  {
    var s0 := NodeStarted(s, n, labels, made);
    RowsGeneratedWaiting(s0, gens);
    RowsGeneratedShape(s0, gens);
  }
}
