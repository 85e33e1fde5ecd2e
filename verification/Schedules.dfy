/** Scheduled apps: while an app waits its stored selector is empty and the submitted one is
    parked in a cron row; what the user is shown is still the selector last accepted. */
module Schedules {
  import opened Collections
  import opened Model
  import opened Namespace
  import opened Consistency
  import opened AppOperations
  import opened ResourceOperations
  import opened NodeOperations
  import opened Runs

  type Memo = map<string, string>

  ghost predicate Shown(apps: Apps, crons: Memo, m: Memo) {
    m.Keys == apps.Keys && forall a | a in apps :: ShownSelector(apps, crons, a) == m[a]
  }

  lemma ShownWith(apps: Apps, crons: Memo, crons': Memo, m: Memo, a: string, row: App, selector: string)
    requires Shown(apps, crons, m)
    requires forall b | b != a :: (b in crons' <==> b in crons) && (b in crons ==> crons'[b] == crons[b])
    requires ShownSelector(apps[a := row], crons', a) == selector
    ensures Shown(apps[a := row], crons', m[a := selector])
  {
    forall b | b in apps && b != a ensures ShownSelector(apps[a := row], crons', b) == m[b] {
      assert ShownSelector(apps, crons, b) == m[b];
    }
  }

  lemma ShownWithout(apps: Apps, crons: Memo, crons': Memo, m: Memo, names: set<string>)
    requires Shown(apps, crons, m)
    requires forall a | a !in names :: (a in crons' <==> a in crons) && (a in crons ==> crons'[a] == crons[a])
    ensures Shown(apps - names, crons', m - names)
  {
    forall a | a in apps - names ensures ShownSelector(apps - names, crons', a) == m[a] {
      assert ShownSelector(apps, crons, a) == m[a];
    }
  }

  lemma ShownSame(apps: Apps, apps': Apps, crons: Memo, m: Memo)
    requires Shown(apps, crons, m) && apps'.Keys == apps.Keys
    requires forall a | a in apps :: apps'[a].selector == apps[a].selector && apps'[a].cron == apps[a].cron
    ensures Shown(apps', crons, m)
  {
    forall a | a in apps' ensures ShownSelector(apps', crons, a) == m[a] {
      assert ShownSelector(apps, crons, a) == m[a];
    }
  }

  lemma ShownExceptAt(apps: Apps, crons: Memo, crons': Memo, m: Memo, a: string)
    requires Shown(apps, crons, m) && a in apps
    requires forall b | b != a :: (b in crons' <==> b in crons) && (b in crons ==> crons'[b] == crons[b])
    ensures Shown(apps, crons', m) <==> ShownSelector(apps, crons', a) == m[a]
  {
    forall b | b in apps && b != a ensures ShownSelector(apps, crons', b) == m[b] {
      assert ShownSelector(apps, crons, b) == m[b];
    }
  }

  // ----- one request -----

  ghost function Submitted(gens: seq<App>): Memo {
    if gens == [] then map[] else Submitted(gens[..|gens| - 1])[gens[|gens| - 1].name := gens[|gens| - 1].selector]
  }

  /** The selectors last accepted for each app, kept beside the run. */
  ghost function Remembered(m: Memo, s: State, e: Event): Memo {
    if Next(s, e).outcome.Fail? then m else
    match e
    case CreateApp(_, app, _) => m[app.name := app.selector]
    case UpdateApp(app, _) => m[app.name := app.selector]
    case DeleteApp(name) => m - {name}
    case CreateNode(_, _, _, gens, _) => m + Submitted(gens)
    case DeleteNode(name) => if name in s.nodes then m - Elements(SystemApps(s, name)) else m
    case _ => m
  }

  lemma AppCreatedShown(s: State, m: Memo, base: Option<string>, app: App, version: string)
    requires CronsExact(s) && Shown(s.apps, s.crons, m) && AppCreated(s, base, app, version).outcome.Pass?
    ensures var s' := AppCreated(s, base, app, version).state;
            Shown(s'.apps, s'.crons, m[app.name := app.selector])
  {
    var row := CreatedRow(s, base, app);
    PassedCreateIs(s, base, app, version);
    AppAddedShown(CronCreated(s, app), row, version, m, s.crons, app.selector);
  }

  lemma AppAddedShown(s: State, row: App, version: string, m: Memo, crons: Memo, selector: string)
    requires Shown(s.apps, crons, m) && Keys(row.volumes) <= s.resources.Keys && row.name !in s.apps
    requires forall a | a != row.name :: (a in s.crons <==> a in crons) && (a in crons ==> s.crons[a] == crons[a])
    requires selector == if row.cron.CronWait? && row.name in s.crons then s.crons[row.name] else row.selector
    ensures var s' := AppAdded(s, row, version);
            Shown(s'.apps, s'.crons, m[row.name := selector])
  {
    var stored := row.(volumes := Latest(row.volumes, s.resources), version := version);
    ShownWith(s.apps, crons, s.crons, m, row.name, stored, selector);
  }

  /** A failed update of a waiting app has already rewritten or dropped the parked selector. */
  ghost predicate UpdateMisreports(s: State, app: App) {
    && app.name in s.apps && s.apps[app.name].cron.CronWait? && app.name in s.crons
    && CronMayBecome(CronWait, app.cron) && Keys(app.volumes) <= s.resources.Keys && !ValidNames(app)
    && s.crons[app.name] != (if app.cron.CronWait? then app.selector else "")
  }

  lemma RevisedCrons(s: State, app: App)
    requires CronsExact(s) && UpdateAccepted(s, app)
    ensures var s' := CronRevised(s, s.apps[app.name], app);
            && s' == s.(crons := s'.crons)
            && (app.cron.CronWait? ==> app.name in s'.crons && s'.crons[app.name] == app.selector)
            && forall a | a != app.name ::
                 (a in s'.crons <==> a in s.crons) && (a in s.crons ==> s'.crons[a] == s.crons[a])
  {
    assert app.cron.CronWait? ==> app.name in Waiting(s.apps);
  }

  lemma AcceptedUpdateShown(s: State, m: Memo, app: App, version: string)
    requires CronsExact(s) && Shown(s.apps, s.crons, m) && UpdateAccepted(s, app)
    ensures var s' := AppUpdated(s, app, version).state;
            Shown(s'.apps, s'.crons, m[app.name := app.selector])
  {
    var stored := s.apps[app.name];
    var s1 := CronRevised(s, stored, app);
    RevisedCrons(s, app);
    AppReplacedWaiting(s1, Parked(app), version);
    var row := Saved(Revised(Parked(app), stored, s.resources, version), stored);
    ShownWith(s.apps, s.crons, s1.crons, m, app.name, row, app.selector);
  }

  lemma RefusedUpdateShownIff(s: State, m: Memo, app: App)
    requires CronsExact(s) && Shown(s.apps, s.crons, m)
    requires app.name in s.apps && RowValid(s.apps, app.name) && CronMayBecome(s.apps[app.name].cron, app.cron)
    requires Keys(app.volumes) <= s.resources.Keys && !ValidNames(app)
    ensures Shown(s.apps, CronRevised(s, s.apps[app.name], app).crons, m) <==> !UpdateMisreports(s, app)
  {
    var crons' := CronRevised(s, s.apps[app.name], app).crons;
    ShownExceptAt(s.apps, s.crons, crons', m, app.name);
    assert s.apps[app.name].cron.CronWait? <==> app.name in Waiting(s.apps);
    assert m[app.name] == ShownSelector(s.apps, s.crons, app.name);
  }

  /** The user is shown the selector last accepted, unless an update of a waiting app failed after
      the cron row had been written. */
  lemma AppUpdatedShownIff(s: State, m: Memo, app: App, version: string)
    requires Consistent(s) && CronsExact(s) && Shown(s.apps, s.crons, m)
    ensures var s' := AppUpdated(s, app, version).state;
            Shown(s'.apps, s'.crons, Remembered(m, s, UpdateApp(app, version))) <==> !UpdateMisreports(s, app)
  {
    ParkedNames(app);
    if UpdateAccepted(s, app) {
      AcceptedUpdateIs(s, app, version);
      AcceptedUpdateShown(s, m, app, version);
    } else {
      RefusedUpdateIs(s, app, version);
      RefusedUpdateKeepsShownIff(s, m, app, version);
    }
  }

  lemma RefusedUpdateKeepsShownIff(s: State, m: Memo, app: App, version: string)
    requires Consistent(s) && CronsExact(s) && Shown(s.apps, s.crons, m) && !UpdateAccepted(s, app)
    ensures Shown(s.apps, AppUpdated(s, app, version).state.crons, m) <==> !UpdateMisreports(s, app)
  {
    ParkedNames(app);
    if Keys(app.volumes) <= s.resources.Keys && app.name in s.apps && CronMayBecome(s.apps[app.name].cron, app.cron) {
      assert RowValid(s.apps, app.name);
      RefusedUpdateShownIff(s, m, app);
    }
  }

  lemma RowAddedShown(apps: Apps, crons: Memo, m: Memo, more: Memo, row: App)
    requires Shown(apps, crons, m + more) && !row.cron.CronWait?
    ensures Shown(apps[row.name := row], crons, m + more[row.name := row.selector])
  {
    ShownWith(apps, crons, crons, m + more, row.name, row, row.selector);
    assert (m + more)[row.name := row.selector] == m + more[row.name := row.selector];
  }

  lemma {:induction false} RowsGeneratedShown(s: State, m: Memo, gens: seq<App>)
    requires Shown(s.apps, s.crons, m)
    requires forall i | 0 <= i < |gens| :: !gens[i].cron.CronWait?
    requires RowsGenerated(s, gens).outcome.Pass?
    ensures Shown(RowsGenerated(s, gens).state.apps, s.crons, m + Submitted(gens))
  {
    if gens == [] {
      assert m + Submitted(gens) == m;
    } else {
      var init, last := gens[..|gens| - 1], gens[|gens| - 1];
      RowsGeneratedShown(s, m, init);
      var mid := RowsGenerated(s, init).state;
      RowAddedShown(mid.apps, s.crons, m, Submitted(init), last.(volumes := Latest(last.volumes, mid.resources)));
    }
  }

  /** The request leaves shown what was last accepted. */
  ghost predicate ShownAfter(s: State, m: Memo, e: Event) {
    Shown(Next(s, e).state.apps, Next(s, e).state.crons, Remembered(m, s, e))
  }

  ghost predicate Reported(s: State, e: Event) {
    e.UpdateApp? ==> !UpdateMisreports(s, e.app)
  }

  lemma NextShownIff(s: State, m: Memo, e: Event)
    requires Consistent(s) && CronsExact(s) && Shown(s.apps, s.crons, m) && Genuine(s, e)
    ensures ShownAfter(s, m, e) <==> Reported(s, e)
  {
    match e
    case CreateApp(base, app, version) => CreateAppShown(s, m, base, app, version);
    case UpdateApp(app, version) => UpdateAppShown(s, m, app, version);
    case DeleteApp(name) => AppDeletedShown(s, m, name);
    case UpdateResource(key, version, mark, names, gen) => UpdateResourceShown(s, m, key, version, mark, names, gen);
    case CreateNode(name, labels, made, gens, order) => CreateNodeShown(s, m, name, labels, made, gens, order);
    case DeleteNode(name) => NodeDeletedShown(s, m, name);
    case _ => UntouchedShown(s, m, e);
  }

  lemma CreateAppShown(s: State, m: Memo, base: Option<string>, app: App, version: string)
    requires CronsExact(s) && Shown(s.apps, s.crons, m)
    ensures ShownAfter(s, m, CreateApp(base, app, version))
  {
    if AppCreated(s, base, app, version).outcome.Pass? {
      AppCreatedShown(s, m, base, app, version);
    } else {
      FailedCreateShown(s, m, base, app, version);
    }
  }

  /** A cron row without an app is shown to nobody. */
  lemma FailedCreateShown(s: State, m: Memo, base: Option<string>, app: App, version: string)
    requires CronsExact(s) && Shown(s.apps, s.crons, m) && AppCreated(s, base, app, version).outcome.Fail?
    ensures Shown(AppCreated(s, base, app, version).state.apps, AppCreated(s, base, app, version).state.crons, m)
  {
    var crons' := AppCreated(s, base, app, version).state.crons;
    forall a | a in s.apps ensures ShownSelector(s.apps, crons', a) == m[a] {
      assert ShownSelector(s.apps, s.crons, a) == m[a];
    }
  }

  lemma UpdateAppShown(s: State, m: Memo, app: App, version: string)
    requires Consistent(s) && CronsExact(s) && Shown(s.apps, s.crons, m)
    ensures ShownAfter(s, m, UpdateApp(app, version)) <==> !UpdateMisreports(s, app)
  {
    AppUpdatedShownIff(s, m, app, version);
  }

  lemma UpdateResourceShown(s: State, m: Memo, key: Key, version: string, mark: bool,
                            names: seq<string>, gen: string -> string)
    requires Consistent(s) && Shown(s.apps, s.crons, m) && Elements(names) == Users(s, key)
    ensures ShownAfter(s, m, UpdateResource(key, version, mark, names, gen))
  {
    ResourceUpdatedShown(s, m, key, version, mark, names, gen);
  }

  lemma CreateNodeShown(s: State, m: Memo, name: string, labels: Labels, made: Made, gens: seq<App>, order: seq<string>)
    requires Shown(s.apps, s.crons, m) && forall i | 0 <= i < |gens| :: !gens[i].cron.CronWait?
    ensures ShownAfter(s, m, CreateNode(name, labels, made, gens, order))
  {
    if NodeCreated(s, name, labels, made, gens, order).outcome.Pass? {
      NodeCreatedShown(s, m, name, labels, made, gens, order);
    }
  }

  lemma UntouchedShown(s: State, m: Memo, e: Event)
    requires Shown(s.apps, s.crons, m)
    requires e.CreateResource? || e.EditSecret? || e.DeleteResource? || e.UpdateNode? || e.SetProps?
    ensures ShownAfter(s, m, e)
  {
    AppsUntouched(s, e);
  }

  lemma AppsUntouched(s: State, e: Event)
    requires e.CreateResource? || e.EditSecret? || e.DeleteResource? || e.UpdateNode? || e.SetProps?
    ensures Next(s, e).state.apps == s.apps && Next(s, e).state.crons == s.crons
  {
  }

  lemma NodeCreatedShown(s: State, m: Memo, name: string, labels: Labels, made: Made, gens: seq<App>,
                         order: seq<string>)
    requires Shown(s.apps, s.crons, m) && forall i | 0 <= i < |gens| :: !gens[i].cron.CronWait?
    requires NodeCreated(s, name, labels, made, gens, order).outcome.Pass?
    ensures var s' := NodeCreated(s, name, labels, made, gens, order).state;
            Shown(s'.apps, s'.crons, m + Submitted(gens))
  {
    NodeCreatedParts(s, name, labels, made, gens, order);
    RowsGeneratedShown(NodeStarted(s, name, labels, made), m, gens);
  }

  lemma AppDeletedShown(s: State, m: Memo, name: string)
    requires Shown(s.apps, s.crons, m)
    ensures ShownAfter(s, m, DeleteApp(name))
  {
    if name in s.apps {
      if MayDelete(s, name) { ShownWithout(s.apps, s.crons, AppDeleted(s, name).state.crons, m, {name}); }
    } else {
      assert m - {name} == m;
    }
  }

  lemma NodeGoneShown(s: State, m: Memo, name: string)
    requires Consistent(s) && Shown(s.apps, s.crons, m) && name in s.nodes
    ensures Shown(NodeDeleted(s, name).state.apps, NodeDeleted(s, name).state.crons, m - Elements(SystemApps(s, name)))
  {
    NodeDeletedParts(s, name);
    ShownWithout(s.apps, s.crons, s.crons, m, Elements(SystemApps(s, name)));
  }

  lemma NodeDeletedShown(s: State, m: Memo, name: string)
    requires Consistent(s) && Shown(s.apps, s.crons, m)
    ensures ShownAfter(s, m, DeleteNode(name))
  {
    if name in s.nodes {
      NodeGoneShown(s, m, name);
    }
  }

  lemma ResourceUpdatedShown(s: State, m: Memo, key: Key, version: string, mark: bool,
                             names: seq<string>, gen: string -> string)
    requires Consistent(s) && Shown(s.apps, s.crons, m) && Elements(names) == Users(s, key)
    ensures var s' := ResourceUpdated(s, key, version, mark, names, gen).state;
            Shown(s'.apps, s'.crons, m)
  {
    if key in s.resources && LabelsKept(s, key, mark) {
      if Above(version, s.resources[key]) {
        AdvancingUpdate(s, key, version, mark, names, gen);
        ShownSame(s.apps, ResourceUpdated(s, key, version, mark, names, gen).state.apps, s.crons, m);
      } else {
        var s1 := ResourceStored(s, key, version, mark);
        assert s1.resources[key := s.resources[key]] == s.resources;
        PropagationIdle(s1, key, version, s.resources[key], names, gen);
      }
    }
  }

  // ----- runs -----

  ghost function Memory(matches: Matcher, events: seq<Event>): Memo {
    if events == [] then map[]
    else
      var init := events[..|events| - 1];
      Remembered(Memory(matches, init), Run(Empty(matches), init), events[|events| - 1])
  }

  /** The exact condition under which a request keeps both the cron rows and what is shown right. */
  ghost predicate Faithful(s: State, e: Event) {
    CronSafe(s, e) && Reported(s, e)
  }

  ghost predicate FaithfulRun(s: State, events: seq<Event>) {
    forall k | 0 <= k < |events| :: Faithful(Run(s, events[..k]), events[k])
  }

  /** Cron rows match waiting apps, and what is shown is what was last accepted. */
  ghost predicate ShowsLast(matches: Matcher, events: seq<Event>) {
    var s := Run(Empty(matches), events);
    CronsExact(s) && Shown(s.apps, s.crons, Memory(matches, events))
  }

  ghost predicate AlwaysShowsLast(matches: Matcher, events: seq<Event>) {
    forall k | 0 <= k <= |events| :: ShowsLast(matches, events[..k])
  }

  lemma ShowsLastAtFirst(matches: Matcher)
    ensures ShowsLast(matches, [])
  {
    assert Waiting(Empty(matches).apps) == {};
  }

  lemma ShowsLastNextIff(matches: Matcher, events: seq<Event>, k: nat)
    requires k < |events| && CarefulRun(Empty(matches), events) && ShowsLast(matches, events[..k])
    ensures ShowsLast(matches, events[..k + 1]) <==> Faithful(Run(Empty(matches), events[..k]), events[k])
  {
    var s, m, e := Run(Empty(matches), events[..k]), Memory(matches, events[..k]), events[k];
    assert events[..k + 1][..k] == events[..k];
    CarefulUpTo(Empty(matches), events, k);
    EveryRunConsistent(matches, events[..k]);
    NextCronsIff(s, e);
    NextShownIff(s, m, e);
  }

  lemma {:induction false} FaithfulShowsLast(matches: Matcher, events: seq<Event>, k: nat)
    requires k <= |events| && CarefulRun(Empty(matches), events) && FaithfulRun(Empty(matches), events)
    ensures ShowsLast(matches, events[..k])
  {
    if k == 0 {
      assert events[..0] == [];
      ShowsLastAtFirst(matches);
    } else {
      FaithfulShowsLast(matches, events, k - 1);
      ShowsLastNextIff(matches, events, k - 1);
    }
  }

  /** At every point of a careful run, reading an app shows the selector last accepted for it, although
      a waiting app is stored without one, and cron rows match waiting apps, if and only if no request
      of the run failed after it had touched a cron row. */
  lemma EveryRunShowsLastSelectorIff(matches: Matcher, events: seq<Event>)
    requires CarefulRun(Empty(matches), events)
    ensures AlwaysShowsLast(matches, events) <==> FaithfulRun(Empty(matches), events)
  {
    if FaithfulRun(Empty(matches), events) {
      forall k | 0 <= k <= |events| ensures ShowsLast(matches, events[..k]) {
        FaithfulShowsLast(matches, events, k);
      }
    }
    if AlwaysShowsLast(matches, events) {
      forall k | 0 <= k < |events| ensures Faithful(Run(Empty(matches), events[..k]), events[k]) {
        ShowsLastNextIff(matches, events, k);
      }
    }
  }
}
