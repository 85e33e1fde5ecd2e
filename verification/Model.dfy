/** The entities of one namespace: applications with their volumes and services,
    configs and secrets, nodes with labels, and node shadows with a desire. */
module Model {

  datatype Option<+T> = None | Some(value: T)

  datatype Error =
    | NameInUse | NotFound | InvalidNames | ResourceMissing
    | CronConflict | HasBeenUsed | ReferencedByNode | LabelsFixed

  datatype Outcome = Pass | Fail(error: Error)

  type Labels = map<string, string>

  /** Whether a label selector matches a set of labels; an invalid selector matches nothing.
      The same predicate decides when nodes are listed by selector and when apps are rematched. */
  type Matcher = (string, Labels) -> bool

  // Configs and secrets are handled by the same code, so one key covers both tables.
  datatype Kind = Config | Secret
  datatype Key = Key(kind: Kind, name: string)

  datatype Ref = Ref(name: string, version: string)
  datatype Volume = Volume(
    name: string, hostPath: Option<string>, config: Option<Ref>, secret: Option<Ref>, emptyDir: Option<string>)

  datatype Job = Job(completions: int, parallelism: int, backoff: int, policy: string)

  /** Settings that are kept both on the app and, from older versions, on each service; the service calls
      its workload its type. */
  datatype Settings = Settings(workload: string, hostNetwork: bool, replica: int, job: Option<Job>)

  /** `probed`: has a liveness or readiness probe. */
  datatype Service = Service(name: string, mounts: seq<string>, settings: Settings, probed: bool)
  datatype CronStatus = CronNotSet | CronWait | CronFinished

  /** `modeLabel` is the label that repeats the mode; `rest` stands for every field that takes no part in
      placement, versioning or the translations made when an app is shown. */
  datatype App = App(
    name: string, version: string, system: bool, selector: string, mode: string, modeLabel: Option<string>,
    settings: Settings, volumes: seq<Volume>, services: seq<Service>, inits: seq<Service>, cron: CronStatus,
    rest: string)

  datatype AppInfo = AppInfo(name: string, version: string)

  // A desire is a keyed document; the two app lists are two of its entries.
  datatype Value = Infos(infos: seq<AppInfo>) | Props(props: map<string, string>) | Text(text: string)
  type Desire = map<string, Value>

  const APPS := "apps"
  const SYSAPPS := "sysapps"
  const NODE_PROPS := "nodeprops"

  function AppsKey(system: bool): string {
    if system then SYSAPPS else APPS
  }

  function AppInfos(d: Desire, system: bool): seq<AppInfo> {
    if AppsKey(system) in d && d[AppsKey(system)].Infos? then d[AppsKey(system)].infos else []
  }

  function SetAppInfos(d: Desire, system: bool, infos: seq<AppInfo>): Desire {
    d[AppsKey(system) := Infos(infos)]
  }

  /** Three-way lexicographic comparison of strings. */
  function Compare(a: string, b: string): int {
    if a == [] && b == [] then 0
    else if a == [] then -1
    else if b == [] then 1
    else if a[0] != b[0] then (if a[0] < b[0] then -1 else 1)
    else Compare(a[1..], b[1..])
  }

  /** `a` sorts after `b`. */
  predicate Above(a: string, b: string) {
    Compare(a, b) > 0
  }
}
