/** Concrete runs in which the code falls short, one for each condition the run theorems ask for. */
module Examples {
  import opened Collections
  import opened Model
  import opened Namespace
  import opened Consistency
  import opened AppOperations
  import opened ResourceOperations
  import opened NodeOperations
  import opened Runs
  import opened RoundTrips
  import opened Compatibility
  import opened VolumeView

  const FLEET: Labels := map[]
  const NOTHING := Made(map[], {})

  function Everywhere(): Matcher {
    (selector, labels) => true
  }

  const SETTLED := Settings(DEPLOYMENT, false, 1, Some(NEVER))

  function Plain(name: string, system: bool): App {
    App(name, "", system, "all", KUBE, Some(KUBE), SETTLED, [], [], [], CronNotSet, "")
  }

  function OfConfig(version: string): Volume {
    Volume("v", None, Some(Ref("c", version)), None, None)
  }

  function OfSecret(name: string, secret: string, version: string): Volume {
    Volume(name, None, None, Some(Ref(secret, version)), None)
  }

  const BARE := Volume("v", None, None, None, None)

  // ----- what a few requests leave alone -----

  lemma AppAddedOnTop(s: State, base: string, app: App, version: string)
    requires Consistent(s) && base in s.apps && Keys(app.volumes) <= s.resources.Keys
    requires ValidNames(CreatedRow(s, Some(base), app)) && app.name !in s.apps && !app.cron.CronWait?
    ensures Keys(CreatedRow(s, Some(base), app).volumes) <= s.resources.Keys
    ensures var r, row := Next(s, CreateApp(Some(base), app, version)), CreatedRow(s, Some(base), app);
            && r.outcome.Pass? && Consistent(r.state)
            && r.state.apps == s.apps[app.name := row.(volumes := Latest(row.volumes, s.resources), version := version)]
            && r.state.crons == s.crons && r.state.resources == s.resources
  {
    OnlyNamesStop(s, Some(base), app);
    StorablePasses(s, Some(base), app, version);
    AppCreatedConsistent(s, Some(base), app, version);
    AddedTables(s, CreatedRow(s, Some(base), app), version);
  }

  lemma StorablePasses(s: State, base: Option<string>, app: App, version: string)
    requires (base.Some? ==> base.value in s.apps) && Keys(app.volumes) <= s.resources.Keys
    requires app.name !in s.apps && !app.cron.CronWait? && CanStore(s, CreatedRow(s, base, app))
    ensures AppCreated(s, base, app, version) == Step(AppAdded(s, CreatedRow(s, base, app), version), Pass)
  {
  }

  lemma AddedTables(s: State, row: App, version: string)
    requires Keys(row.volumes) <= s.resources.Keys
    ensures var s' := AppAdded(s, row, version);
            && s'.apps == s.apps[row.name := row.(volumes := Latest(row.volumes, s.resources), version := version)]
            && s'.crons == s.crons && s'.resources == s.resources
            && s'.nodes == s.nodes && s'.matches == s.matches && s'.labelled == s.labelled
  {
  }

  lemma AppAddedTo(s: State, app: App, version: string)
    requires Consistent(s) && CanStore(s, app) && app.name !in s.apps && !app.cron.CronWait?
    ensures var r := Next(s, CreateApp(None, app, version));
            && r.outcome.Pass? && Consistent(r.state)
            && r.state.apps == s.apps[app.name := app.(volumes := Latest(app.volumes, s.resources), version := version)]
            && r.state.nodes == s.nodes && r.state.matches == s.matches && r.state.crons == s.crons
            && r.state.resources == s.resources && r.state.labelled == s.labelled
  {
    StorablePasses(s, None, app, version);
    AppCreatedConsistent(s, None, app, version);
    AddedTables(s, app, version);
  }

  lemma NodeAddedTo(s: State, n: string, order: seq<string>)
    requires Consistent(s) && n !in s.nodes && Lists(order, s.apps.Keys)
    ensures var r := Next(s, CreateNode(n, FLEET, NOTHING, [], order));
            && r.outcome.Pass? && Consistent(r.state)
            && r.state.nodes == s.nodes[n := FLEET] && r.state.apps == s.apps && r.state.matches == s.matches
            && r.state.crons == s.crons && r.state.resources == s.resources && r.state.labelled == s.labelled
  {
    NodeAloneIs(s, n, order);
    var s1 := s.(nodes := s.nodes[n := FLEET]);
    NodePlacedConsistent(s, s1, n, FLEET, order, None);
  }

  /** Creating a node without generated apps or resources only places it. */
  lemma NodeAloneIs(s: State, n: string, order: seq<string>)
    requires s.shadows.Keys == s.nodes.Keys && n !in s.nodes
    ensures var s1 := s.(nodes := s.nodes[n := FLEET]);
            NodeCreated(s, n, FLEET, NOTHING, [], order)
            == Step(NodePlaced(s1, n, FLEET, Merged(None, RematchedDesire(s1, order, FLEET))), Pass)
  {
    assert s.resources + map[] == s.resources && s.labelled - {} + {} == s.labelled;
    assert NodeStarted(s, n, FLEET, NOTHING) == s.(nodes := s.nodes[n := FLEET]);
  }

  lemma ResourceAddedTo(s: State, key: Key, version: string, mark: bool)
    requires Consistent(s) && key !in s.resources
    ensures var r := Next(s, CreateResource(key, version, mark));
            && r.outcome.Pass? && Consistent(r.state) && r.state == ResourceStored(s, key, version, mark)
  {
    ResourceCreatedConsistent(s, key, version, mark);
  }

  lemma EmptyConsistent()
    ensures Consistent(Empty(Everywhere()))
  {
  }

  /** One node without generated apps. */
  ghost function OneNode(): State {
    Next(Empty(Everywhere()), CreateNode("n", FLEET, NOTHING, [], [])).state
  }

  lemma OneNodeConsistent()
    ensures Consistent(OneNode()) && OneNode().nodes == map["n" := FLEET] && OneNode().apps == map[]
    ensures OneNode().matches == Everywhere() && OneNode().resources == map[] && OneNode().crons == map[]
    ensures OneNode().labelled == {}
  {
    EmptyConsistent();
    NodeAddedTo(Empty(Everywhere()), "n", []);
  }

  lemma TwoKeys(vs: seq<Volume>)
    requires |vs| == 2
    ensures Keys(vs) == VolumeKeys(vs[0]) + VolumeKeys(vs[1])
  {
    assert vs[..1][..0] == [];
    assert Keys(vs[..1]) == VolumeKeys(vs[0]);
  }

  lemma PlainStorable(s: State, app: App)
    requires app.volumes == [] && app.services == []
    ensures CanStore(s, app)
  {
  }

  // ----- the system flag -----

  /** An app on that node. */
  ghost function OneApp(system: bool): State {
    Next(OneNode(), CreateApp(None, Plain("a", system), "1")).state
  }

  lemma OneAppConsistent(system: bool)
    ensures Consistent(OneApp(system)) && OneApp(system).nodes == map["n" := FLEET]
    ensures OneApp(system).matches == Everywhere()
    ensures OneApp(system).apps == map["a" := Plain("a", system).(version := "1")]
  {
    OneNodeConsistent();
    PlainStorable(OneNode(), Plain("a", system));
    AppAddedTo(OneNode(), Plain("a", system), "1");
  }

  /** Turning a user app into a system app leaves its entry in the wrong list. */
  lemma FlippingSystemFlagBreaks()
    ensures !Consistent(Next(OneApp(false), UpdateApp(Plain("a", true), "2")).state)
  {
    OneAppConsistent(false);
    var s := OneApp(false);
    PlainStorable(s, Plain("a", true));
    assert "n" in Reached(s.matches, s.nodes, "all");
    AppUpdatedConsistentIff(s, Plain("a", true), "2");
  }

  // ----- deleting a node -----

  /** A second node joins, and both run the system app. */
  ghost function TwoNodes(): State {
    Next(OneApp(true), CreateNode("m", FLEET, NOTHING, [], ["a"])).state
  }

  lemma TwoNodesConsistent()
    ensures Consistent(TwoNodes()) && TwoNodes().nodes == map["n" := FLEET, "m" := FLEET]
    ensures TwoNodes().matches == Everywhere() && TwoNodes().apps == map["a" := Plain("a", true).(version := "1")]
  {
    OneAppConsistent(true);
    assert Elements(["a"]) == {"a"} == OneApp(true).apps.Keys;
    NodeAddedTo(OneApp(true), "m", ["a"]);
  }

  /** Deleting one of two nodes that share a system app leaves the other asking for a deleted app. */
  lemma DeletingNodeBreaksSharedSystemApp()
    ensures !Consistent(Next(TwoNodes(), DeleteNode("n")).state)
  {
    TwoNodesConsistent();
    SharedAppBreaks(TwoNodes());
  }

  lemma SharedAppBreaks(s: State)
    requires Consistent(s) && s.nodes == map["n" := FLEET, "m" := FLEET] && s.matches == Everywhere()
    requires s.apps == map["a" := Plain("a", true).(version := "1")]
    ensures !Consistent(Next(s, DeleteNode("n")).state)
  {
    SharedEverywhere(s, "a", "n", "m");
    NodeDeletedConsistentIff(s, "n");
  }

  lemma SharedEverywhere(s: State, a: string, n: string, m: string)
    requires a in s.apps && s.apps[a].system && s.apps[a].selector == "all" && s.matches == Everywhere()
    requires n in s.nodes && m in s.nodes && n != m
    ensures !SystemAppsPrivate(s, n)
  {
    var selector := s.apps[a].selector;
    assert Selects(s.matches, selector, s.nodes[n]) && Selects(s.matches, selector, s.nodes[m]);
  }

  const SETTINGS := Key(Config, "c")

  function Configured(name: string, system: bool): App {
    Plain(name, system).(volumes := [OfConfig("")])
  }

  lemma ConfiguredKeys(name: string, system: bool, version: string)
    ensures Keys(Configured(name, system).volumes) == {SETTINGS}
    ensures Latest(Configured(name, system).volumes, map[SETTINGS := version])
         == [OfConfig(version)]
    ensures Keys([OfConfig(version)]) == {SETTINGS}
  {
    assert Configured(name, system).volumes[..0] == [];
    assert [OfConfig(version)][..0] == [];
  }

  ghost function ConfigOnly(version: string, mark: bool): State {
    Next(OneNode(), CreateResource(SETTINGS, version, mark)).state
  }

  lemma ConfigOnlyConsistent(version: string, mark: bool)
    ensures var s := ConfigOnly(version, mark);
            && Consistent(s) && s.resources == map[SETTINGS := version] && s.apps == map[]
            && s.nodes == map["n" := FLEET] && s.matches == Everywhere()
            && s.labelled == if mark then {SETTINGS} else {}
  {
    OneNodeConsistent();
    ResourceAddedTo(OneNode(), SETTINGS, version, mark);
  }

  /** An app that mounts the config. */
  ghost function WithConfig(version: string, mark: bool, system: bool): State {
    Next(ConfigOnly(version, mark), CreateApp(None, Configured("a", system), "1")).state
  }

  function Mounting(name: string, system: bool, version: string): App {
    Plain(name, system).(volumes := [OfConfig(version)], version := "1")
  }

  lemma WithConfigConsistent(version: string, mark: bool, system: bool)
    ensures var s := WithConfig(version, mark, system);
            && Consistent(s) && s.resources == map[SETTINGS := version] && s.nodes == map["n" := FLEET]
            && s.matches == Everywhere() && s.apps == map["a" := Mounting("a", system, version)]
            && s.labelled == if mark then {SETTINGS} else {}
  {
    ConfigOnlyConsistent(version, mark);
    ConfiguredKeys("a", system, version);
    AppAddedTo(ConfigOnly(version, mark), Configured("a", system), "1");
  }

  lemma MountingUser(s: State, version: string)
    requires Consistent(s) && s.apps == map["a" := Mounting("a", false, version)]
    ensures Users(s, SETTINGS) == {"a"}
  {
    MountingKeys(version);
    OnlyUser(s, "a", SETTINGS);
  }

  lemma MountingKeys(version: string)
    ensures SETTINGS in Keys(Mounting("a", false, version).volumes)
  {
    ConfiguredKeys("a", false, version);
  }

  lemma OnlyUser(s: State, a: string, key: Key)
    requires Consistent(s) && s.apps.Keys == {a} && key in Keys(s.apps[a].volumes)
    ensures Users(s, key) == {a}
  {
    UsedKeys(s, key);
  }

  /** A user app mounts the same labelled config as the node's system app. */
  ghost function SharedConfig(): State {
    Next(WithConfig("1", true, true), CreateApp(None, Configured("b", false), "1")).state
  }

  lemma SharedConfigConsistent()
    ensures var s := SharedConfig();
            && Consistent(s) && s.nodes == map["n" := FLEET] && s.matches == Everywhere()
            && s.resources == map[SETTINGS := "1"] && s.labelled == {SETTINGS}
            && s.apps == map["a" := Mounting("a", true, "1"), "b" := Mounting("b", false, "1")]
  {
    WithConfigConsistent("1", true, true);
    ConfiguredKeys("b", false, "1");
    AppAddedTo(WithConfig("1", true, true), Configured("b", false), "1");
  }

  /** Deleting the node takes the config from under the user app, although the system app was private. */
  lemma DeletingNodeBreaksSharedConfig()
    ensures "n" in SharedConfig().nodes && SystemAppsPrivate(SharedConfig(), "n")
    ensures !Consistent(NodeDeleted(SharedConfig(), "n").state)
  {
    SharedConfigConsistent();
    SharedConfigFacts(SharedConfig());
    SharedMountBreaks(SharedConfig(), "n", "a", "b", SETTINGS);
  }

  lemma SharedConfigFacts(s: State)
    requires s.apps == map["a" := Mounting("a", true, "1"), "b" := Mounting("b", false, "1")]
    ensures s.apps["a"].system && !s.apps["b"].system && s.apps["a"].selector == "all"
    ensures SETTINGS in Keys(s.apps["a"].volumes) && SETTINGS in Keys(s.apps["b"].volumes)
    ensures forall c | c in s.apps :: SingleSource(s.apps[c].volumes)
  {
    ConfiguredKeys("a", true, "1");
  }

  /** The only node runs one system app, which mounts what another app mounts too. */
  lemma SharedMountBreaks(s: State, n: string, a: string, b: string, key: Key)
    requires Consistent(s) && s.nodes == map[n := FLEET] && s.matches == Everywhere()
    requires a in s.apps && s.apps[a].system && s.apps[a].selector == "all" && b in s.apps && !s.apps[b].system
    requires forall c | c in s.apps :: SingleSource(s.apps[c].volumes)
    requires key in s.labelled && key in Keys(s.apps[a].volumes) && key in Keys(s.apps[b].volumes)
    ensures SystemAppsPrivate(s, n) && !Consistent(NodeDeleted(s, n).state)
  {
    SharedResourceLost(s, n, a, b, key);
    NodeDeletedConsistentIff(s, n);
  }

  // ----- generated apps -----

  /** A template that does not select by node name; the shipped ones do. */
  const GENS := [Plain("g", true)]

  lemma GeneratedOne(s: State)
    ensures RowsGenerated(s, GENS).outcome.Pass? && RowsGenerated(s, GENS).state.apps.Keys == s.apps.Keys + {"g"}
  {
    assert GENS[..0] == [] && GENS[0].volumes == [];
  }

  /** A generated app that also selects an existing node is missing from that node's desire. */
  lemma GeneratedAppBreaksOtherNode()
    ensures !Consistent(Next(OneNode(), CreateNode("m", FLEET, NOTHING, GENS, ["g"])).state)
  {
    OneNodeConsistent();
    GeneratedAppBreaks(OneNode());
  }

  lemma GeneratedAppBreaks(s: State)
    requires Consistent(s) && s.nodes == map["n" := FLEET] && s.apps == map[] && s.matches == Everywhere()
    ensures !Consistent(Next(s, CreateNode("m", FLEET, NOTHING, GENS, ["g"])).state)
  {
    assert s.shadows.Keys == s.nodes.Keys;
    GeneratedOne(NodeStarted(s, "m", FLEET, NOTHING));
    GeneratedEverywhere(s, "n");
    SharedNodeCreated(s, "m", FLEET, NOTHING, GENS, ["g"]);
  }

  lemma GeneratedEverywhere(s: State, n: string)
    requires n in s.nodes && s.apps == map[] && s.matches == Everywhere()
    ensures GeneratedWell(s, NOTHING, GENS) && !GeneratedPrivate(s, GENS)
  {
    assert Selects(s.matches, GENS[0].selector, s.nodes[n]);
  }

  // ----- versions -----

  lemma {:induction false} SamePrefix(p: string, a: string, b: string)
    ensures Compare(p + a, p + b) == Compare(a, b)
  {
    if p == [] {
      assert p + a == a && p + b == b;
    } else {
      assert (p + a)[1..] == p[1..] + a && (p + b)[1..] == p[1..] + b;
      SamePrefix(p[1..], a, b);
    }
  }

  /** Two updates in the same second: the versions differ in their random letters only, and the second
      one, which sorts below the first, is stored but reaches no app. */
  lemma SmallerVersionIsLost(second: string, gen: string -> string)
    ensures !Consistent(Next(WithConfig(second + "zzzzzz", false, false),
                             UpdateResource(SETTINGS, second + "aaaaaa", false, ["a"], gen)).state)
  {
    WithConfigConsistent(second + "zzzzzz", false, false);
    MountingUser(WithConfig(second + "zzzzzz", false, false), second + "zzzzzz");
    SamePrefix(second, "aaaaaa", "zzzzzz");
    assert (second + "aaaaaa")[|second|] != (second + "zzzzzz")[|second|];
    LowerVersionLost(WithConfig(second + "zzzzzz", false, false), second + "zzzzzz", second + "aaaaaa", gen);
  }

  lemma LowerVersionLost(s: State, carried: string, version: string, gen: string -> string)
    requires Consistent(s) && s.resources == map[SETTINGS := carried] && s.labelled == {}
    requires Users(s, SETTINGS) == {"a"} && version != carried && !Above(version, carried)
    ensures !Consistent(Next(s, UpdateResource(SETTINGS, version, false, ["a"], gen)).state)
  {
    assert Elements(["a"]) == {"a"};
    ResourceUpdatedConsistentIff(s, SETTINGS, version, false, ["a"], gen);
  }

  // ----- certificates -----

  const CERT := Key(Secret, "k")

  function Certified(): App {
    Plain("a", false).(volumes := [OfSecret("v", "k", "")])
  }

  ghost function CertOnly(): State {
    Next(OneNode(), CreateResource(CERT, "1", false)).state
  }

  ghost function WithCert(): State {
    Next(CertOnly(), CreateApp(None, Certified(), "1")).state
  }

  lemma CertifiedKeys(version: string)
    ensures Keys(Certified().volumes) == {CERT} && Keys(Latest(Certified().volumes, map[CERT := version])) == {CERT}
  {
    assert Certified().volumes[..0] == [];
    LatestIsCurrent(Certified().volumes, map[CERT := version]);
  }

  lemma WithCertConsistent()
    ensures var s := WithCert();
            && Consistent(s) && s.resources == map[CERT := "1"] && "a" in s.apps && CERT in Keys(s.apps["a"].volumes)
  {
    OneNodeConsistent();
    ResourceAddedTo(OneNode(), CERT, "1", false);
    CertifiedKeys("1");
    AppAddedTo(CertOnly(), Certified(), "1");
  }

  /** Renewing a certificate leaves the apps that mount it at the old version, however the versions sort. */
  lemma RenewedCertificateIsLost()
    ensures !Consistent(Next(WithCert(), EditSecret("k", "2", false)).state)
  {
    WithCertConsistent();
    EditedSecretLost(WithCert(), "k", "2", "a");
  }

  lemma EditedSecretLost(s: State, name: string, version: string, a: string)
    requires Consistent(s) && Key(Secret, name) in s.resources && version != s.resources[Key(Secret, name)]
    requires a in s.apps && Key(Secret, name) in Keys(s.apps[a].volumes)
    ensures !Consistent(Next(s, EditSecret(name, version, false)).state)
  {
    UsedKeys(s, Key(Secret, name));
    SecretEditedConsistentIff(s, name, version, false);
  }

  // ----- apps read and submitted again -----

  function Probed(): App {
    Plain("a", false).(services := [Service("s", [], SETTLED, true)])
  }

  ghost function OneProbed(): State {
    Next(OneNode(), CreateApp(None, Probed(), "1")).state
  }

  /** Submitting an app with a probe as it was read spends a version, and its node is told. */
  lemma ProbedResubmissionSpends()
    ensures "a" in OneProbed().apps
    ensures var s' := Next(OneProbed(), UpdateApp(Resubmission(map[], Read(OneProbed(), "a")), "2")).state;
            "a" in s'.apps && s'.apps["a"].version == "2" && OneProbed().apps["a"].version == "1"
  {
    OneNodeConsistent();
    assert CanStore(OneNode(), Probed());
    AppAddedTo(OneNode(), Probed(), "1");
    OneProbedSpends(OneProbed());
  }

  lemma OneProbedSpends(s: State)
    requires Consistent(s) && s.apps == map["a" := Probed().(version := "1")]
    requires s.crons == map[] && s.resources == map[]
    ensures var s' := Next(s, UpdateApp(Resubmission(map[], Read(s, "a")), "2")).state;
            "a" in s'.apps && s'.apps["a"].version == "2"
  {
    ProbedLasting(s);
    ProbedSpends(s, map[], "a", "2");
  }

  lemma ProbedLasting(s: State)
    requires s.apps == map["a" := Probed().(version := "1")] && s.crons == map[] && s.resources == map[]
    ensures CronsExact(s) && SecretsOf(s, map[]) && !Unprobed(s.apps["a"]) && Lasting(map[], s.apps["a"])
  {
    assert Waiting(s.apps) == {};
    assert s.apps["a"].services[0].probed;
    var x := SettingsOf(s.apps["a"]);
    assert x.app == SETTLED && x.services[0] == SETTLED;
  }

  const REGISTRY := Key(Secret, "r")
  const LABELS: Secrets := map["r" := SecretRow(RegistryLabel, "hub", "user")]

  function Pulling(): App {
    Plain("b", false).(volumes := [OfSecret("r", "r", "")])
  }

  const STOCK: map<Key, string> := map[SETTINGS := "1", REGISTRY := "1"]

  lemma PullingAdded(s: State)
    requires Consistent(s) && s.resources == STOCK && s.apps == map[]
    ensures var s' := Next(s, CreateApp(None, Pulling(), "1")).state;
            Consistent(s') && s'.resources == STOCK && s'.crons == s.crons && s'.apps == map["b" := PULLING]
  {
    PullingKeys();
    AppAddedTo(s, Pulling(), "1");
  }

  lemma PullingKeys()
    ensures Keys(Pulling().volumes) <= STOCK.Keys && ValidNames(Pulling())
    ensures Latest(Pulling().volumes, STOCK) == PULLING.volumes
  {
    assert Pulling().volumes[..0] == [];
  }

  lemma LatestOfTwo(v: Volume, w: Volume, resources: map<Key, string>)
    requires VolumeKeys(v) + VolumeKeys(w) <= resources.Keys
    ensures Keys([v, w]) <= resources.Keys
    ensures Latest([v, w], resources) == [LatestVolume(v, resources), LatestVolume(w, resources)]
  {
    TwoKeys([v, w]);
  }

  const PULLING := Pulling().(volumes := [OfSecret("r", "r", "1")], version := "1")

  /** The registry of the base app comes before the config. */
  lemma OnTopOfBase(s: State, app: App)
    requires Consistent(s) && s.resources == STOCK && s.apps == map["b" := PULLING] && app == Configured("a", false)
    ensures var r := Next(s, CreateApp(Some("b"), app, "1"));
            && Consistent(r.state) && r.state.resources == STOCK && r.state.crons == s.crons
            && r.state.apps == s.apps["a" := app.(volumes := [OfSecret("r", "r", "1"), OfConfig("1")], version := "1")]
  {
    ConfiguredKeys("a", false, "1");
    RowOnTop(s);
    StockLatest("1", "");
    AppAddedOnTop(s, "b", app, "1");
  }

  lemma RowOnTop(s: State)
    requires s.apps == map["b" := PULLING]
    ensures var row := CreatedRow(s, Some("b"), Configured("a", false));
            row == Plain("a", false).(volumes := [OfSecret("r", "r", "1"), OfConfig("")]) && ValidNames(row)
  {
  }

  lemma StockLatest(version: string, version': string)
    ensures Keys([OfSecret("r", "r", version), OfConfig(version')]) <= STOCK.Keys
    ensures Keys([OfConfig(version'), OfSecret("r", "r", version)]) <= STOCK.Keys
    ensures Latest([OfSecret("r", "r", version), OfConfig(version')], STOCK) == [OfSecret("r", "r", "1"), OfConfig("1")]
    ensures Latest([OfConfig(version'), OfSecret("r", "r", version)], STOCK) == [OfConfig("1"), OfSecret("r", "r", "1")]
  {
    var r, v := OfSecret("r", "r", version), OfConfig(version');
    LatestOfTwo(r, v, STOCK);
    LatestOfTwo(v, r, STOCK);
  }

  lemma RunNext(events: seq<Event>, e: Event)
    ensures Run(Empty(Everywhere()), events + [e]) == Next(Run(Empty(Everywhere()), events), e).state
  {
    assert (events + [e])[..|events + [e]| - 1] == events;
  }

  lemma NobodyWaits(s: State)
    requires s.crons == map[] && forall a | a in s.apps :: !s.apps[a].cron.CronWait?
    ensures CronsExact(s)
  {
    assert Waiting(s.apps) == {};
  }

  /** A config and a registry. */
  lemma Stocked() returns (events: seq<Event>, s: State)
    ensures Run(Empty(Everywhere()), events) == s && Consistent(s)
    ensures s.resources == STOCK && s.apps == map[] && s.crons == map[]
  {
    EmptyConsistent();
    s, events := Empty(Everywhere()), [];
    events, s := WithResource(events, s, SETTINGS);
    events, s := WithResource(events, s, REGISTRY);
  }

  lemma WithResource(before: seq<Event>, s0: State, key: Key) returns (events: seq<Event>, s: State)
    requires Run(Empty(Everywhere()), before) == s0 && Consistent(s0) && key !in s0.resources
    ensures Run(Empty(Everywhere()), events) == s && Consistent(s)
    ensures s.resources == s0.resources[key := "1"] && s.apps == s0.apps && s.crons == s0.crons
  {
    var e := CreateResource(key, "1", false);
    RunNext(before, e);
    ResourceAddedTo(s0, key, "1", false);
    events, s := before + [e], Next(s0, e).state;
  }

  lemma BaseStored() returns (events: seq<Event>, s: State)
    ensures Run(Empty(Everywhere()), events) == s && Consistent(s)
    ensures s.resources == STOCK && s.crons == map[] && s.apps == map["b" := PULLING]
  {
    var before, s0 := Stocked();
    var e := CreateApp(None, Pulling(), "1");
    RunNext(before, e);
    PullingAdded(s0);
    events, s := before + [e], Next(s0, e).state;
  }

  /** An app with a config of its own on top of a base app with a registry. */
  lemma StoredOnBase() returns (events: seq<Event>, s: State)
    ensures Run(Empty(Everywhere()), events) == s && Consistent(s) && CronsExact(s)
    ensures s.resources == STOCK && "a" in s.apps
    ensures s.apps["a"] == Plain("a", false).(volumes := [OfSecret("r", "r", "1"), OfConfig("1")], version := "1")
  {
    var before, s0 := BaseStored();
    var e := CreateApp(Some("b"), Configured("a", false), "1");
    RunNext(before, e);
    OnTopOfBase(s0, Configured("a", false));
    events, s := before + [e], Next(s0, e).state;
    NobodyWaits(s);
  }

  lemma RegistryMoves()
    ensures Rehidden(LABELS, [OfSecret("r", "r", "1"), OfConfig("1")]) == [OfConfig("1"), OfSecret("r", "r", "")]
    ensures !Tidy(LABELS, [OfSecret("r", "r", "1"), OfConfig("1")])
  {
    var r, v := OfSecret("r", "r", "1"), OfConfig("1");
    assert [r, v] == [r] + [v] && [r] == [] + [r];
    ShownNext(LABELS, [], r);
    ShownNext(LABELS, [r], v);
    assert HasLabel(LABELS, [r, v][0], RegistryLabel) && !HasLabel(LABELS, [r, v][1], RegistryLabel);
  }

  /** The base app's registry is stored first and shown last, so submitting the app as it was read spends
      a version, although nobody changed anything. */
  lemma BaseRegistryResubmissionSpends() returns (events: seq<Event>, s: State)
    ensures Run(Empty(Everywhere()), events) == s && SecretsOf(s, LABELS) && "a" in s.apps && Unprobed(s.apps["a"])
    ensures var s' := Next(s, UpdateApp(Resubmission(LABELS, Read(s, "a")), "2")).state;
            && "a" in s'.apps && s'.apps["a"].version == "2" && s.apps["a"].version == "1"
            && s.apps["a"].volumes == [OfSecret("r", "r", "1"), OfConfig("1")]
            && s'.apps["a"].volumes == [OfConfig("1"), OfSecret("r", "r", "1")]
  {
    events, s := StoredOnBase();
    StockSecrets(s);
    RegistryFirstSpends(s);
  }

  lemma RegistryFirstSpends(s: State)
    requires Consistent(s) && CronsExact(s) && s.resources == STOCK && "a" in s.apps
    requires s.apps["a"] == Plain("a", false).(volumes := [OfSecret("r", "r", "1"), OfConfig("1")], version := "1")
    ensures var s' := Next(s, UpdateApp(Resubmission(LABELS, Read(s, "a")), "2")).state;
            && "a" in s'.apps && s'.apps["a"].version == "2"
            && s'.apps["a"].volumes == [OfConfig("1"), OfSecret("r", "r", "1")]
  {
    RegistryMoves();
    StockLatest("", "1");
    StockSecrets(s);
    MovedNames(s.apps["a"]);
    MovedRegistrySpends(s, LABELS, "a", "2");
  }

  lemma StockSecrets(s: State)
    requires s.resources == STOCK
    ensures SecretsOf(s, LABELS)
  {
  }

  lemma MovedNames(app: App)
    requires app == Plain("a", false).(volumes := [OfSecret("r", "r", "1"), OfConfig("1")], version := "1")
    ensures ValidNames(Resubmission(LABELS, app))
  {
    RegistryMoves();
  }

  lemma MovedRegistrySpends(s: State, secrets: Secrets, a: string, version: string)
    requires Consistent(s) && CronsExact(s) && a in s.apps && SecretsOf(s, secrets)
    requires !Tidy(secrets, s.apps[a].volumes) && CanStore(s, Resubmission(secrets, s.apps[a]))
    ensures var s' := Next(s, UpdateApp(Resubmission(secrets, Read(s, a)), version)).state;
            && a in s'.apps && s'.apps[a].version == version
            && s'.apps[a].volumes == Latest(Rehidden(secrets, s.apps[a].volumes), s.resources)
  {
    ResubmissionParks(s, secrets, a, version);
    ResubmissionSpends(s, secrets, a, version);
  }

  // ----- schedules -----

  function Clashing(cron: CronStatus): App {
    Plain("a", false).(cron := cron, volumes := [BARE, BARE])
  }

  lemma ClashingRefused(app: App)
    requires app.volumes == Clashing(CronWait).volumes
    ensures !ValidNames(app) && Keys(app.volumes) == {}
  {
    assert app.volumes[0].name == app.volumes[1].name;
    TwoKeys(app.volumes);
  }

  /** A waiting app whose creation fails leaves its cron row behind. */
  lemma FailedCreationStrandsCron()
    ensures !CronsExact(Next(OneNode(), CreateApp(None, Clashing(CronWait), "1")).state)
  {
    OneNodeConsistent();
    var s := OneNode();
    assert Waiting(s.apps) == {};
    ClashingRefused(Clashing(CronWait));
    ClashingRefused(CreatedRow(s, None, Clashing(CronWait)));
    AppCreatedCrons(s, None, Clashing(CronWait), "1");
  }

  function Parking(): App {
    Plain("a", false).(cron := CronWait)
  }

  /** A waiting app. */
  ghost function OneWaiting(): State {
    Next(OneNode(), CreateApp(None, Parking(), "1")).state
  }

  lemma OneWaitingConsistent()
    ensures var s := OneWaiting();
            Consistent(s) && s.crons == map["a" := "all"] && s.apps.Keys == {"a"} && s.apps["a"].cron.CronWait?
  {
    OneNodeConsistent();
    PlainStorable(OneNode(), CreatedRow(OneNode(), None, Parking()));
    AppCreatedConsistent(OneNode(), None, Parking(), "1");
  }

  /** A failed update that was to end the wait loses the parked selector: the app is still waiting, and
      the selector shown for it is empty. */
  lemma FailedUpdateLosesSelector()
    ensures var s, s' := OneWaiting(), Next(OneWaiting(), UpdateApp(Clashing(CronNotSet), "2")).state;
            && !CronsExact(s') && "a" in s.apps && "a" in s'.apps && s'.apps["a"].cron.CronWait?
            && ShownSelector(s.apps, s.crons, "a") == "all" && ShownSelector(s'.apps, s'.crons, "a") == ""
  {
    OneWaitingConsistent();
    var s := OneWaiting();
    assert Waiting(s.apps) == {"a"} && RowValid(s.apps, "a");
    ClashingRefused(Clashing(CronNotSet));
    AppUpdatedCrons(s, Clashing(CronNotSet), "2");
  }

  /** A failed update that was to keep the app waiting rewrites the parked selector: the refused one is shown. */
  lemma FailedUpdateRewritesSelector()
    ensures var s, r := OneWaiting(), Next(OneWaiting(), UpdateApp(Clashing(CronWait).(selector := "other"), "2"));
            && r.outcome.Fail? && "a" in s.apps && r.state.apps == s.apps
            && ShownSelector(s.apps, s.crons, "a") == "all"
            && ShownSelector(r.state.apps, r.state.crons, "a") == "other"
  {
    OneWaitingConsistent();
    var s := OneWaiting();
    assert RowValid(s.apps, "a");
    ClashingRefused(Clashing(CronWait).(selector := "other"));
    RefusedUpdateIs(s, Clashing(CronWait).(selector := "other"), "2");
  }
}
