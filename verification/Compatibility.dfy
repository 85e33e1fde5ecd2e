/** api/application.go: settings that older versions kept on each service are copied to the app and back.
    It is done once to every request and once to every app that is shown. */
module Compatibility {
  import opened Model

  const DEPLOYMENT := "deployment"
  const NEVER := Job(0, 0, 0, "Never")

  /** An app's settings and those of its services. */
  datatype Both = Both(app: Settings, services: seq<Settings>)

  predicate NoPolicy(job: Option<Job>) {
    job.None? || job.value.policy == ""
  }

  // ----- one setting at a time -----

  function AppWorkload(x: Both): string {
    if x.app.workload != "" then x.app.workload
    else if x.services != [] && x.services[0].workload != "" then x.services[0].workload
    else DEPLOYMENT
  }

  /** Services are filled in only when the app had a workload of its own. */
  function ServiceWorkload(x: Both, own: string): string {
    if x.app.workload != "" && own == "" then x.app.workload else own
  }

  function AppHostNetwork(x: Both): bool {
    x.app.hostNetwork || (x.services != [] && x.services[0].hostNetwork)
  }

  function ServiceHostNetwork(x: Both, own: bool): bool {
    x.app.hostNetwork || own
  }

  function AppReplica(x: Both): int {
    if x.app.replica == 0 && x.services != [] then x.services[0].replica else x.app.replica
  }

  function ServiceReplica(x: Both, own: int): int {
    if own == 0 then x.app.replica else own
  }

  function AppJob(x: Both): Option<Job> {
    if !NoPolicy(x.app.job) then x.app.job
    else if x.services != [] && x.services[0].job.Some? then x.services[0].job
    else Some(NEVER)
  }

  /** Not filled in when the app's job has just been taken from the first service. */
  function ServiceJob(x: Both, own: Option<Job>): Option<Job> {
    if NoPolicy(own) && (!NoPolicy(x.app.job) || x.services == [] || x.services[0].job.None?) then AppJob(x) else own
  }

  function CompatibleApp(x: Both): Settings {
    Settings(AppWorkload(x), AppHostNetwork(x), AppReplica(x), AppJob(x))
  }

  function CompatibleService(x: Both, own: Settings): Settings {
    Settings(ServiceWorkload(x, own.workload), ServiceHostNetwork(x, own.hostNetwork),
             ServiceReplica(x, own.replica), ServiceJob(x, own.job))
  }

  function Compatible(x: Both): (r: Both)
    ensures |r.services| == |x.services|
  {
    Both(CompatibleApp(x), seq(|x.services|, i requires 0 <= i < |x.services| => CompatibleService(x, x.services[i])))
  }

  // ----- the code -----

  method CompatibleWorkload(x: Both) returns (workload: string, services: seq<Settings>)
    ensures workload == AppWorkload(x) && |services| == |x.services|
    ensures forall i | 0 <= i < |services| ::
      services[i] == x.services[i].(workload := ServiceWorkload(x, x.services[i].workload))
  {
    workload, services := x.app.workload, x.services;
    if workload == "" {
      if |services| > 0 && services[0].workload != "" {
        workload := services[0].workload;
      } else {
        workload := DEPLOYMENT;
      }
    } else {
      for k := 0 to |services|
        invariant |services| == |x.services|
        invariant forall i | 0 <= i < k ::
          services[i] == x.services[i].(workload := ServiceWorkload(x, x.services[i].workload))
        invariant forall i | k <= i < |services| :: services[i] == x.services[i]
      {
        if services[k].workload == "" {
          services := services[k := services[k].(workload := workload)];
        }
      }
    }
  }

  method CompatibleHostNetwork(x: Both) returns (hostNetwork: bool, services: seq<Settings>)
    ensures hostNetwork == AppHostNetwork(x) && |services| == |x.services|
    ensures forall i | 0 <= i < |services| ::
      services[i] == x.services[i].(hostNetwork := ServiceHostNetwork(x, x.services[i].hostNetwork))
  {
    hostNetwork, services := x.app.hostNetwork, x.services;
    if !hostNetwork && |services| > 0 && services[0].hostNetwork {
      hostNetwork := true;
    } else {
      if hostNetwork {
        for k := 0 to |services|
          invariant |services| == |x.services|
          invariant forall i | 0 <= i < k :: services[i] == x.services[i].(hostNetwork := true)
          invariant forall i | k <= i < |services| :: services[i] == x.services[i]
        {
          services := services[k := services[k].(hostNetwork := true)];
        }
      }
    }
  }

  method CompatibleReplica(x: Both) returns (replica: int, services: seq<Settings>)
    ensures replica == AppReplica(x) && |services| == |x.services|
    ensures forall i | 0 <= i < |services| ::
      services[i] == x.services[i].(replica := ServiceReplica(x, x.services[i].replica))
  {
    replica, services := x.app.replica, x.services;
    if replica == 0 {
      if |services| > 0 && services[0].replica != 0 {
        replica := services[0].replica;
      }
    } else {
      for k := 0 to |services|
        invariant |services| == |x.services|
        invariant forall i | 0 <= i < k ::
          services[i] == x.services[i].(replica := ServiceReplica(x, x.services[i].replica))
        invariant forall i | k <= i < |services| :: services[i] == x.services[i]
      {
        if services[k].replica == 0 {
          services := services[k := services[k].(replica := replica)];
        }
      }
    }
  }

  method FillJobs(services: seq<Settings>, job: Job) returns (filled: seq<Settings>)
    ensures |filled| == |services|
    ensures forall i | 0 <= i < |services| ::
      filled[i] == services[i].(job := if NoPolicy(services[i].job) then Some(job) else services[i].job)
  {
    filled := services;
    for k := 0 to |services|
      invariant |filled| == |services|
      invariant forall i | 0 <= i < k ::
        filled[i] == services[i].(job := if NoPolicy(services[i].job) then Some(job) else services[i].job)
      invariant forall i | k <= i < |services| :: filled[i] == services[i]
    {
      if filled[k].job.None? || filled[k].job.value.policy == "" {
        filled := filled[k := filled[k].(job := Some(job))];
      }
    }
  }

  method CompatibleJob(x: Both) returns (job: Option<Job>, services: seq<Settings>)
    ensures job == AppJob(x) && |services| == |x.services|
    ensures forall i | 0 <= i < |services| :: services[i] == x.services[i].(job := ServiceJob(x, x.services[i].job))
  {
    job, services := x.app.job, x.services;
    if job.None? || job.value.policy == "" {
      if |services| > 0 && services[0].job.Some? {
        job := Some(services[0].job.value);
      } else {
        job := Some(NEVER);
        services := FillJobs(services, NEVER);
      }
    } else {
      services := FillJobs(services, job.value);
    }
  }

  /** The four parts one after the other; no part looks at what another has changed. */
  method CompatibleAppDeprecatedField(x: Both) returns (r: Both)
    ensures r == Compatible(x)
  {
    var workload, s1 := CompatibleWorkload(x);
    var hostNetwork, s2 := CompatibleHostNetwork(Both(x.app.(workload := workload), s1));
    var replica, s3 := CompatibleReplica(Both(x.app.(workload := workload, hostNetwork := hostNetwork), s2));
    var x3 := Both(x.app.(workload := workload, hostNetwork := hostNetwork, replica := replica), s3);
    var job, s4 := CompatibleJob(x3);
    r := Both(Settings(workload, hostNetwork, replica, job), s4);
    forall i | 0 <= i < |s4| ensures s4[i] == CompatibleService(x, x.services[i]) {
      assert s1[i] == x.services[i].(workload := ServiceWorkload(x, x.services[i].workload));
    }
  }

  // ----- when nothing is left to copy -----

  ghost predicate HostNetworkSteady(x: Both) {
    if x.app.hostNetwork then forall i | 0 <= i < |x.services| :: x.services[i].hostNetwork
    else x.services == [] || !x.services[0].hostNetwork
  }

  ghost predicate ReplicaSteady(x: Both) {
    if x.app.replica != 0 then forall i | 0 <= i < |x.services| :: x.services[i].replica != 0
    else x.services == [] || x.services[0].replica == 0
  }

  /** A job without a policy is steady only as a copy of the first service's. */
  ghost predicate JobSteady(x: Both) {
    if !NoPolicy(x.app.job) then forall i | 0 <= i < |x.services| :: !NoPolicy(x.services[i].job)
    else x.services != [] && x.services[0].job.Some? && x.app.job == x.services[0].job
  }

  /** The settings that take part in the comparison of apps are as copying would leave them. */
  ghost predicate Steady(x: Both) {
    x.app.workload != "" && HostNetworkSteady(x) && ReplicaSteady(x) && JobSteady(x)
  }

  /** Equal but for the types of the services, which are not compared. */
  ghost predicate SameButTypes(x: Both, y: Both) {
    && x.app == y.app && |x.services| == |y.services|
    && forall i | 0 <= i < |x.services| :: x.services[i] == y.services[i].(workload := x.services[i].workload)
  }

  /** Shown and submitted again, what is compared is unchanged exactly when it was steady. */
  lemma TwiceIff(x: Both)
    ensures SameButTypes(Compatible(Compatible(x)), x) <==> Steady(x)
  {
    if Steady(x) { SteadyOnce(x); }
    if SameButTypes(Compatible(Compatible(x)), x) { UnchangedSteady(x); }
  }

  lemma SteadyOnce(x: Both)
    requires Steady(x)
    ensures SameButTypes(Compatible(x), x) && SameButTypes(Compatible(Compatible(x)), x)
  {
  }

  lemma UnchangedSteady(x: Both)
    requires SameButTypes(Compatible(Compatible(x)), x)
    ensures Steady(x)
  {
  }

  /** Two rounds are enough: what has been shown and submitted once is steady. */
  lemma TwiceSteady(x: Both)
    ensures Steady(Compatible(Compatible(x)))
  {
  }

  /** One round is not: replicas taken from the first service reach the others only in the next. */
  lemma OnceIsNotEnough(own: Settings)
    requires own.replica == 0
    ensures var x := Both(own, [own.(replica := 1), own]);
            && Compatible(x).app.replica == 1 && Compatible(x).services[1].replica == 0
            && Compatible(Compatible(x)).services[1].replica == 1 && !Steady(Compatible(x))
  {
    var x := Both(own, [own.(replica := 1), own]);
    assert Compatible(x).services[1].replica == 0;
  }

  // ----- what it is for -----

  /** Every setting is given. */
  predicate Complete(own: Settings) {
    own.workload != "" && own.hostNetwork && own.replica != 0 && !NoPolicy(own.job)
  }

  const NOTHING_GIVEN := Settings("", false, 0, None)

  /** An app in the old form, with all settings on its only service, is the app in the new form, */
  lemma OldFormIsNewForm(own: Settings)
    requires Complete(own)
    ensures Compatible(Both(NOTHING_GIVEN, [own])) == Both(own, [own])
  {
    assert Compatible(Both(NOTHING_GIVEN, [own])).services[0] == own;
  }

  /** settings on the app reach every service that gives none, and with none anywhere the defaults apply; */
  lemma NewFormReachesServices(own: Settings, services: seq<Settings>, i: nat)
    requires Complete(own) && i < |services| && services[i] == NOTHING_GIVEN
    ensures Compatible(Both(own, services)).app == own && Compatible(Both(own, services)).services[i] == own
    ensures Compatible(Both(NOTHING_GIVEN, [])).app == Settings("deployment", false, 0, Some(Job(0, 0, 0, "Never")))
  {
  }

  /** and a setting that is given is never changed, on the app or on a service. */
  lemma GivenKept(x: Both, i: nat)
    requires i < |x.services|
    ensures var r := Compatible(x);
            && (x.app.workload != "" ==> r.app.workload == x.app.workload)
            && (x.app.hostNetwork ==> r.app.hostNetwork) && (x.app.replica != 0 ==> r.app.replica == x.app.replica)
            && (!NoPolicy(x.app.job) ==> r.app.job == x.app.job)
            && (x.services[i].workload != "" ==> r.services[i].workload == x.services[i].workload)
            && (x.services[i].hostNetwork ==> r.services[i].hostNetwork)
            && (x.services[i].replica != 0 ==> r.services[i].replica == x.services[i].replica)
            && (!NoPolicy(x.services[i].job) ==> r.services[i].job == x.services[i].job)
  {
  }
}
