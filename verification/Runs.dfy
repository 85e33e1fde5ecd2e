/** Whole runs: every sequence of requests, successful or not, from an empty namespace. */
module Runs {
  import opened Collections
  import opened Model
  import opened Namespace
  import opened Consistency
  import opened AppOperations
  import opened ResourceOperations
  import opened NodeOperations
  import Sync

  /** A request together with what the outside world contributes to it: generated versions and
      apps, and the order in which tables are listed. */
  datatype Event =
    | CreateApp(base: Option<string>, app: App, version: string)
    | UpdateApp(app: App, version: string)
    | DeleteApp(name: string)
    | CreateResource(key: Key, version: string, mark: bool)
    | UpdateResource(key: Key, version: string, mark: bool, names: seq<string>, gen: string -> string)
    | EditSecret(name: string, version: string, mark: bool)
    | DeleteResource(key: Key)
    | CreateNode(name: string, labels: Labels, made: Made, gens: seq<App>, order: seq<string>)
    | UpdateNode(name: string, labels: Labels, order: seq<string>)
    | DeleteNode(name: string)
    | SetProps(name: string, props: map<string, string>)

  ghost function Next(s: State, e: Event): Step {
    match e
    case CreateApp(base, app, version) => AppCreated(s, base, app, version)
    case UpdateApp(app, version) => AppUpdated(s, app, version)
    case DeleteApp(name) => AppDeleted(s, name)
    case CreateResource(key, version, mark) => ResourceCreated(s, key, version, mark)
    case UpdateResource(key, version, mark, names, gen) => ResourceUpdated(s, key, version, mark, names, gen)
    case EditSecret(name, version, mark) => SecretEdited(s, name, version, mark)
    case DeleteResource(key) => ResourceDeleted(s, key)
    case CreateNode(name, labels, made, gens, order) => NodeCreated(s, name, labels, made, gens, order)
    case UpdateNode(name, labels, order) => NodeUpdated(s, name, labels, order)
    case DeleteNode(name) => NodeDeleted(s, name)
    case SetProps(name, props) => PropsSet(s, name, props)
  }

  /** The outside world's part is well formed: listings list the tables they claim to list, and
      generated apps have new, valid names. */
  ghost predicate Genuine(s: State, e: Event) {
    match e
    case UpdateResource(key, _, _, names, _) => Elements(names) == Users(s, key)
    case CreateNode(name, labels, made, gens, order) =>
      GeneratedWell(s, made, gens) && Lists(order, Generated(s, name, labels, made, gens).state.apps.Keys)
    case UpdateNode(_, _, order) => Lists(order, s.apps.Keys)
    case _ => true
  }

  /** The exact condition under which a request keeps the namespace consistent. */
  ghost predicate Careful(s: State, e: Event) {
    match e
    case UpdateApp(app, _) => UpdateAccepted(s, app) ==> SystemFlagKept(s, app)
    case UpdateResource(key, version, mark, _, _) =>
      key in s.resources && LabelsKept(s, key, mark) ==> VersionAdvances(s, key, version)
    case EditSecret(name, version, _) =>
      var key := Key(Secret, name);
      key in s.resources ==> version == s.resources[key] || Users(s, key) == {}
    case CreateNode(name, labels, made, gens, order) =>
      NodeCreated(s, name, labels, made, gens, order).outcome.Pass? ==> GeneratedPrivate(s, gens)
    case DeleteNode(name) => name in s.nodes ==> SystemAppsPrivate(s, name) && SweptUnused(s, name)
    case _ => true
  }

  /** The exact condition under which a request keeps one cron row per waiting app. */
  ghost predicate CronSafe(s: State, e: Event) {
    match e
    case CreateApp(base, app, _) => !CreateStrandsCron(s, base, app)
    case UpdateApp(app, _) => !UpdateDropsCron(s, app)
    case _ => true
  }

  lemma NextConsistentIff(s: State, e: Event)
    requires Consistent(s) && Genuine(s, e)
    ensures Consistent(Next(s, e).state) <==> Careful(s, e)
  {
    match e
    case CreateApp(base, app, version) => AppCreatedConsistent(s, base, app, version);
    case UpdateApp(app, version) => AppUpdatedConsistentIff(s, app, version);
    case DeleteApp(name) => AppDeletedConsistent(s, name);
    case CreateResource(key, version, mark) => ResourceCreatedConsistent(s, key, version, mark);
    case UpdateResource(key, version, mark, names, gen) =>
      if key in s.resources && LabelsKept(s, key, mark) {
        ResourceUpdatedConsistentIff(s, key, version, mark, names, gen);
      }
    case EditSecret(name, version, mark) => SecretEditedConsistentIff(s, name, version, mark);
    case DeleteResource(key) => ResourceDeletedConsistent(s, key);
    case CreateNode(name, labels, made, gens, order) => NodeCreatedConsistentIff(s, name, labels, made, gens, order);
    case UpdateNode(name, labels, order) => NodeUpdatedConsistent(s, name, labels, order);
    case DeleteNode(name) => if name in s.nodes { NodeDeletedConsistentIff(s, name); }
    case SetProps(name, props) => PropsSetConsistent(s, name, props);
  }

  lemma NextCronsIff(s: State, e: Event)
    requires Consistent(s) && CronsExact(s) && Genuine(s, e)
    ensures CronsExact(Next(s, e).state) <==> CronSafe(s, e)
  {
    match e
    case CreateApp(base, app, version) => AppCreatedCrons(s, base, app, version);
    case UpdateApp(app, version) => AppUpdatedCrons(s, app, version);
    case DeleteApp(name) => AppDeletedConsistent(s, name);
    case UpdateResource(key, version, mark, names, gen) =>
      if key in s.resources && LabelsKept(s, key, mark) {
        ResourceUpdatedConsistentIff(s, key, version, mark, names, gen);
      }
    case CreateNode(name, labels, made, gens, order) => NodeCreatedCrons(s, name, labels, made, gens, order);
    case DeleteNode(name) => NodeDeletedCrons(s, name);
    case _ =>
  }

  // ----- runs -----

  ghost function Run(s: State, events: seq<Event>): State {
    if events == [] then s else Next(Run(s, events[..|events| - 1]), events[|events| - 1]).state
  }

  ghost predicate CarefulRun(s: State, events: seq<Event>) {
    forall k | 0 <= k < |events| :: Genuine(Run(s, events[..k]), events[k]) && Careful(Run(s, events[..k]), events[k])
  }

  ghost predicate CronSafeRun(s: State, events: seq<Event>) {
    forall k | 0 <= k < |events| :: CronSafe(Run(s, events[..k]), events[k])
  }

  lemma CarefulUpTo(s: State, events: seq<Event>, k: nat)
    requires k <= |events| && CarefulRun(s, events)
    ensures CarefulRun(s, events[..k])
  {
    forall j | 0 <= j < k ensures events[..k][..j] == events[..j] {
    }
  }

  lemma CronSafeUpTo(s: State, events: seq<Event>, k: nat)
    requires k <= |events| && CronSafeRun(s, events)
    ensures CronSafeRun(s, events[..k])
  {
    forall j | 0 <= j < k ensures events[..k][..j] == events[..j] {
    }
  }

  lemma PrefixCareful(s: State, events: seq<Event>)
    requires events != [] && CarefulRun(s, events)
    ensures var init, last := events[..|events| - 1], events[|events| - 1];
            CarefulRun(s, init) && Genuine(Run(s, init), last) && Careful(Run(s, init), last)
  {
    CarefulUpTo(s, events, |events| - 1);
  }

  lemma PrefixCronSafe(s: State, events: seq<Event>)
    requires events != [] && CronSafeRun(s, events)
    ensures var init, last := events[..|events| - 1], events[|events| - 1];
            CronSafeRun(s, init) && CronSafe(Run(s, init), last)
  {
    CronSafeUpTo(s, events, |events| - 1);
  }

  /** After any run, desires, placement index, reference index and carried versions are exactly what
      a full recompute from apps, nodes and resources would give. */
  lemma {:induction false} EveryRunConsistent(matches: Matcher, events: seq<Event>)
    requires CarefulRun(Empty(matches), events)
    ensures Consistent(Run(Empty(matches), events))
  {
    var s := Empty(matches);
    if events == [] {
      assert Consistent(s);
    } else {
      PrefixCareful(s, events);
      EveryRunConsistent(matches, events[..|events| - 1]);
      NextConsistentIff(Run(s, events[..|events| - 1]), events[|events| - 1]);
    }
  }

  lemma {:induction false} EveryRunCrons(matches: Matcher, events: seq<Event>)
    requires CarefulRun(Empty(matches), events) && CronSafeRun(Empty(matches), events)
    ensures CronsExact(Run(Empty(matches), events))
  {
    var s := Empty(matches);
    if events == [] {
      assert Waiting(s.apps) == {};
    } else {
      PrefixCareful(s, events);
      PrefixCronSafe(s, events);
      EveryRunCrons(matches, events[..|events| - 1]);
      EveryRunConsistent(matches, events[..|events| - 1]);
      NextCronsIff(Run(s, events[..|events| - 1]), events[|events| - 1]);
    }
  }

  // ----- and only then -----

  ghost predicate GenuineRun(s: State, events: seq<Event>) {
    forall k | 0 <= k < |events| :: Genuine(Run(s, events[..k]), events[k])
  }

  ghost predicate AlwaysConsistent(s: State, events: seq<Event>) {
    forall k | 0 <= k <= |events| :: Consistent(Run(s, events[..k]))
  }

  ghost predicate AlwaysCronsExact(s: State, events: seq<Event>) {
    forall k | 0 <= k <= |events| :: CronsExact(Run(s, events[..k]))
  }

  lemma RunStep(s: State, events: seq<Event>, k: nat)
    requires k < |events|
    ensures Run(s, events[..k + 1]) == Next(Run(s, events[..k]), events[k]).state
  {
    assert events[..k + 1][..k] == events[..k];
  }

  /** The namespace is consistent at every point of a run exactly when every request of it was careful. */
  lemma EveryRunConsistentIff(matches: Matcher, events: seq<Event>)
    requires GenuineRun(Empty(matches), events)
    ensures AlwaysConsistent(Empty(matches), events) <==> CarefulRun(Empty(matches), events)
  {
    var s := Empty(matches);
    if AlwaysConsistent(s, events) {
      forall k | 0 <= k < |events| ensures Careful(Run(s, events[..k]), events[k]) {
        RunStep(s, events, k);
        NextConsistentIff(Run(s, events[..k]), events[k]);
      }
    }
    if CarefulRun(s, events) {
      forall k | 0 <= k <= |events| ensures Consistent(Run(s, events[..k])) {
        CarefulUpTo(s, events, k);
        EveryRunConsistent(matches, events[..k]);
      }
    }
  }

  /** And in such a run every waiting app always has its cron row, and no other row exists, exactly
      when every request was safe for them. */
  lemma EveryRunCronsIff(matches: Matcher, events: seq<Event>)
    requires CarefulRun(Empty(matches), events)
    ensures AlwaysCronsExact(Empty(matches), events) <==> CronSafeRun(Empty(matches), events)
  {
    var s := Empty(matches);
    EveryRunConsistentIff(matches, events);
    if AlwaysCronsExact(s, events) {
      forall k | 0 <= k < |events| ensures CronSafe(Run(s, events[..k]), events[k]) {
        RunStep(s, events, k);
        NextCronsIff(Run(s, events[..k]), events[k]);
      }
    }
    if CronSafeRun(s, events) {
      forall k | 0 <= k <= |events| ensures CronsExact(Run(s, events[..k])) {
        CarefulUpTo(s, events, k);
        CronSafeUpTo(s, events, k);
        EveryRunCrons(matches, events[..k]);
      }
    }
  }

  // ----- what every run promises its users -----

  /** Every reference of every stored app names an existing resource at its current version. */
  lemma EveryRunReferencesCurrent(matches: Matcher, events: seq<Event>, a: string, i: nat)
    requires CarefulRun(Empty(matches), events)
    requires a in Run(Empty(matches), events).apps && i < |Run(Empty(matches), events).apps[a].volumes|
    ensures var s := Run(Empty(matches), events);
            var v := s.apps[a].volumes[i];
            && (v.config.Some? ==> var k := Key(Config, v.config.value.name);
                                   k in s.resources && v.config.value.version == s.resources[k])
            && (v.secret.Some? ==> var k := Key(Secret, v.secret.value.name);
                                   k in s.resources && v.secret.value.version == s.resources[k])
  {
    EveryRunConsistent(matches, events);
    var s := Run(Empty(matches), events);
    assert Current(s.apps[a].volumes, s.resources);
    LatestAt(s.apps[a].volumes, s.resources);
  }

  /** A waiting app is on no node: in no list of any desire and in no row of the index. */
  lemma EveryRunWaitingIdle(matches: Matcher, events: seq<Event>, a: string, n: string)
    requires CarefulRun(Empty(matches), events)
    requires a in Run(Empty(matches), events).apps && Run(Empty(matches), events).apps[a].cron.CronWait?
    requires n in Run(Empty(matches), events).nodes
    ensures var s := Run(Empty(matches), events);
            && (a, n) !in s.placed && n in s.shadows && s.shadows[n].Some?
            && forall system, x | x in AppInfos(s.shadows[n].value, system) :: x.name != a
  {
    EveryRunConsistent(matches, events);
    var s := Run(Empty(matches), events);
    assert RowValid(s.apps, a);
    assert DesireExact(s.matches, s.apps, s.nodes[n], s.shadows[n]);
    forall system, x | x in AppInfos(s.shadows[n].value, system) ensures x.name != a {
      assert ListExact(s.matches, s.apps, s.nodes[n], s.shadows[n].value, system);
      assert x in Elements(AppInfos(s.shadows[n].value, system));
    }
  }

  /** Fast refines simple: after any run, rescanning any node gives back what the incremental edits left. */
  lemma EveryRunRescanAgrees(matches: Matcher, events: seq<Event>, n: string, order: seq<string>)
    requires CarefulRun(Empty(matches), events)
    requires n in Run(Empty(matches), events).nodes && Lists(order, Run(Empty(matches), events).apps.Keys)
    ensures var s := Run(Empty(matches), events);
            && n in s.shadows && s.shadows[n].Some?
            && var d' := Merged(s.shadows[n], RematchedDesire(s, order, s.nodes[n]));
               && NodeUpdated(s, n, s.nodes[n], order) == Step(s.(shadows := s.shadows[n := Some(d')]), Pass)
               && SameUpToOrder(s.shadows[n].value, d')
  {
    EveryRunConsistent(matches, events);
    var s := Run(Empty(matches), events);
    assert DesireExact(s.matches, s.apps, s.nodes[n], s.shadows[n]);
    RescanTouchesOneDesire(s, n, order);
    RescanReordersOnly(s, n, order);
  }

  /** Whatever a node reports, the answer it is given speaks only of apps, system apps and properties. */
  lemma EveryRunAnswersCompared(matches: Matcher, events: seq<Event>, n: string, report: Desire)
    requires CarefulRun(Empty(matches), events) && n in Run(Empty(matches), events).nodes
    ensures var s := Run(Empty(matches), events);
            && n in s.shadows && s.shadows[n].Some?
            && Sync.Delta(s.shadows[n].value, report).Keys <= Sync.Compared()
  {
    EveryRunConsistent(matches, events);
    var s := Run(Empty(matches), events);
    assert DesireExact(s.matches, s.apps, s.nodes[n], s.shadows[n]);
    Sync.DeltaKeysIff(s.shadows[n].value, report);
  }

  /** A node that applies the answer to a report runs exactly the apps that select it, at their current
      versions; and the answer to its next report leaves a list out exactly when that is what it reports there. */
  lemma EveryRunNodesConverge(matches: Matcher, events: seq<Event>, n: string, stored: Desire, source: Sync.Source,
                              first: Desire, t1: string, second: Desire, t2: string, system: bool)
    requires CarefulRun(Empty(matches), events) && n in Run(Empty(matches), events).nodes
    requires (system || source.Core?) && AppsKey(system) in second
    ensures var s := Run(Empty(matches), events);
            && n in s.shadows && s.shadows[n].Some?
            && var desire, report := s.shadows[n].value, Sync.NextReport(stored, source, first, t1);
               var applied := Sync.Applied(Sync.ExtractComparingReport(report), Sync.Delta(desire, report));
               && DesireExact(s.matches, s.apps, s.nodes[n], Some(applied))
               && (AppsKey(system) !in Sync.Delta(desire, Sync.NextReport(report, source, second, t2)) <==>
                   second[AppsKey(system)] == applied[AppsKey(system)])
  {
    EveryRunConsistent(matches, events);
    var s := Run(Empty(matches), events);
    assert DesireExact(s.matches, s.apps, s.nodes[n], s.shadows[n]);
    var desire, report := s.shadows[n].value, Sync.NextReport(stored, source, first, t1);
    Sync.DeltaApplies(desire, report);
    Sync.ReportedDecides(desire, report, source, second, t2, AppsKey(system));
  }
}
