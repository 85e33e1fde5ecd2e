/** service/sync.go: a node reports what it runs and is told how that differs from its desire. */
module Sync {
  import opened Model

  // ----- keyed differences -----

  /** What to change in `have` to get `want`; `None` stands for nil, a key to be removed. */
  type Patch<V> = map<string, Option<V>>

  function DiffWithNil<V(==)>(want: map<string, V>, have: map<string, V>): Patch<V> {
    (map k | k in want && !(k in have && have[k] == want[k]) :: Some(want[k])) +
    (map k | k in have.Keys - want.Keys :: None)
  }

  function Applied<V>(have: map<string, V>, patch: Patch<V>): map<string, V> {
    (map k | k in have && k !in patch :: have[k]) + (map k | k in patch && patch[k].Some? :: patch[k].value)
  }

  lemma DiffMentions<V>(want: map<string, V>, have: map<string, V>)
    ensures forall k :: k in DiffWithNil(want, have) <==>
      (k in want && !(k in have && have[k] == want[k])) || (k in have && k !in want)
    ensures forall k | k in DiffWithNil(want, have) ::
      DiffWithNil(want, have)[k] == if k in want then Some(want[k]) else None
  {
  }

  lemma DiffApplies<V>(want: map<string, V>, have: map<string, V>)
    ensures Applied(have, DiffWithNil(want, have)) == want
  {
    DiffMentions(want, have);
    var r := Applied(have, DiffWithNil(want, have));
    forall k ensures k in r <==> k in want {}
    forall k | k in want ensures r[k] == want[k] {}
  }

  // ----- reports -----

  const SYSAPP_STATS := "sysappstats"
  const TIME := "time"

  datatype Mode = CloudMode | LocalMode
  datatype Source = Core | Init

  /** Only these parts of a report are compared with the desire. */
  ghost function Compared(): set<string> {
    {APPS, SYSAPPS, NODE_PROPS}
  }

  function ExtractComparingReport(report: Desire): (r: Desire)
    ensures r.Keys == report.Keys * Compared()
    ensures forall k | k in r :: r[k] == report[k]
  {
    map k | k in report && (k == APPS || k == SYSAPPS || k == NODE_PROPS) :: report[k]
  }

  /** A full report replaces the stored one; empty or malformed properties are dropped from it. */
  function Replaced(report: Desire, now: string): Desire {
    var r := report[TIME := Text(now)];
    if NODE_PROPS in r && r[NODE_PROPS].Props? && r[NODE_PROPS].props != map[] then r else r - {NODE_PROPS}
  }

  /** The init program reports system apps only; the rest of the stored report stays. */
  function InitMerged(stored: Desire, report: Desire): Desire {
    var s1 := if SYSAPPS in report then stored[SYSAPPS := report[SYSAPPS]] else stored;
    if SYSAPP_STATS in report then s1[SYSAPP_STATS := report[SYSAPP_STATS]] else s1
  }

  function NextReport(stored: Desire, source: Source, report: Desire, now: string): Desire {
    match source
    case Core => Replaced(report, now)
    case Init => InitMerged(stored, report)
  }

  /** The answer to a report: the difference, with the desired properties always sent whole. */
  function Delta(desire: Desire, report: Desire): Patch<Value> {
    var delta := DiffWithNil(desire, ExtractComparingReport(report));
    if NODE_PROPS in desire then delta[NODE_PROPS := Some(desire[NODE_PROPS])] else delta
  }

  datatype Answer = NotReady | Answered(delta: Option<Patch<Value>>)

  /** The stored report and desire of one node. */
  class NodeShadow {
    var desire: Desire
    var report: Desire

    constructor (desire: Desire, report: Desire)
      ensures this.desire == desire && this.report == report
    {
      this.desire, this.report := desire, report;
    }

    /** A node without system apps is not ready; its report has been stored all the same. */
    method Report(source: Source, received: Desire, mode: Mode, now: string) returns (answer: Answer)
      modifies this`report
      ensures report == NextReport(old(report), source, received, now)
      ensures answer.NotReady? <==> AppInfos(desire, true) == []
      ensures answer.Answered? ==>
        answer.delta == if mode.LocalMode? then None else Some(Delta(desire, report))
    {
      match source {
        case Init =>
          if SYSAPPS in received {
            report := report[SYSAPPS := received[SYSAPPS]];
          }
          if SYSAPP_STATS in received {
            report := report[SYSAPP_STATS := received[SYSAPP_STATS]];
          }
        case Core =>
          report := received[TIME := Text(now)];
          var newProps: map<string, string> := map[];
          if NODE_PROPS in report && report[NODE_PROPS].Props? {
            newProps := report[NODE_PROPS].props;
          }
          if newProps == map[] {
            report := report - {NODE_PROPS};
          } else {
            report := report[NODE_PROPS := Props(newProps)];
          }
      }
      if |AppInfos(desire, true)| == 0 {
        return NotReady;
      }
      if mode.LocalMode? {
        return Answered(None);
      }
      var delta := DiffWithNil(desire, ExtractComparingReport(report));
      if NODE_PROPS in desire {
        delta := delta[NODE_PROPS := Some(desire[NODE_PROPS])];
      }
      answer := Answered(Some(delta));
    }
  }

  // ----- what the answer means -----

  ghost predicate Matches(desire: Desire, report: Desire, key: string) {
    (key in report <==> key in desire) && (key in desire ==> report[key] == desire[key])
  }

  /** An app list is mentioned exactly when the report does not match the desire there. */
  lemma DeltaMentionsIff(desire: Desire, report: Desire, key: string)
    requires key == APPS || key == SYSAPPS
    ensures key in Delta(desire, report) <==> !Matches(desire, report, key)
  {
    DiffMentions(desire, ExtractComparingReport(report));
  }

  /** Nothing else a node reports can leak into the answer: it stays within the compared keys
      exactly when the desire does. */
  lemma DeltaKeysIff(desire: Desire, report: Desire)
    ensures Delta(desire, report).Keys <= Compared() <==> desire.Keys <= Compared()
  {
    DiffMentions(desire, ExtractComparingReport(report));
    if k :| k in desire && k !in Compared() {
      assert k in Delta(desire, report);
    }
  }

  /** A node that applies the answer runs what is desired, */
  lemma DeltaApplies(desire: Desire, report: Desire)
    ensures Applied(ExtractComparingReport(report), Delta(desire, report)) == desire
  {
    var have := ExtractComparingReport(report);
    DiffApplies(desire, have);
    if NODE_PROPS in desire {
      AppliedWith(have, DiffWithNil(desire, have), NODE_PROPS, desire[NODE_PROPS]);
      assert desire[NODE_PROPS := desire[NODE_PROPS]] == desire;
    }
  }

  /** One more wanted value in an answer is one more value in the result. */
  lemma AppliedWith<V>(have: map<string, V>, patch: Patch<V>, key: string, value: V)
    ensures Applied(have, patch[key := Some(value)]) == Applied(have, patch)[key := value]
  {
    var a, b := Applied(have, patch[key := Some(value)]), Applied(have, patch)[key := value];
    forall k ensures k in a <==> k in b {}
    forall k | k in a ensures a[k] == b[k] {}
  }

  /** and once it reports that, the next answer mentions no app list: one exchange is enough,
      whatever else the reports contain. */
  lemma SyncConverges(desire: Desire, stored: Desire, first: Desire, second: Desire, source: Source,
                      t1: string, t2: string, key: string)
    requires key == SYSAPPS || (key == APPS && source.Core?)
    requires var applied := Applied(ExtractComparingReport(NextReport(stored, source, first, t1)),
                                    Delta(desire, NextReport(stored, source, first, t1)));
             Matches(applied, second, key)
    requires source.Init? ==> key in desire
    ensures var report1 := NextReport(stored, source, first, t1);
            var report2 := NextReport(report1, source, second, t2);
            key !in Delta(desire, report2)
  {
    var report1 := NextReport(stored, source, first, t1);
    DeltaApplies(desire, report1);
    var report2 := NextReport(report1, source, second, t2);
    assert Matches(desire, report2, key);
    DeltaMentionsIff(desire, report2, key);
  }

  /** For a list that the node reports, the report decides whether the answer mentions it. */
  lemma ReportedDecides(desire: Desire, stored: Desire, source: Source, report: Desire, now: string, key: string)
    requires (key == SYSAPPS || (key == APPS && source.Core?)) && key in report && key in desire
    ensures key !in Delta(desire, NextReport(stored, source, report, now)) <==> report[key] == desire[key]
  {
    DeltaMentionsIff(desire, NextReport(stored, source, report, now), key);
  }

  // ----- what is remembered of a report -----

  ghost predicate SameAt(a: Desire, b: Desire, key: string) {
    (key in a <==> key in b) && (key in a ==> a[key] == b[key])
  }

  /** The init program speaks for the system apps and their statistics only: of what it reports these two are
      stored, and everything else stays as it was reported before. */
  lemma InitKeepsRest(stored: Desire, report: Desire, now: string, key: string)
    ensures var next := NextReport(stored, Init, report, now);
            if (key == SYSAPPS || key == SYSAPP_STATS) && key in report then SameAt(next, report, key)
            else SameAt(next, stored, key)
  {
  }

  /** So a report of the init program changes nothing about whether the user apps are in the answer. */
  lemma InitLeavesApps(desire: Desire, stored: Desire, report: Desire, now: string)
    ensures APPS in Delta(desire, NextReport(stored, Init, report, now)) <==> APPS in Delta(desire, stored)
  {
    InitKeepsRest(stored, report, now, APPS);
    DeltaMentionsIff(desire, stored, APPS);
    DeltaMentionsIff(desire, NextReport(stored, Init, report, now), APPS);
  }

  /** A full report is stored as received, with the time of its arrival, and without properties that are empty or
      malformed; nothing of the stored one is left. */
  lemma CoreReplaces(stored: Desire, report: Desire, now: string, key: string)
    ensures var next := NextReport(stored, Core, report, now);
            && TIME in next && next[TIME] == Text(now)
            && (key != TIME && key != NODE_PROPS ==> SameAt(next, report, key))
            && (NODE_PROPS in next <==> exists props :: props != map[] && NODE_PROPS in report
                                                       && report[NODE_PROPS] == Props(props))
            && (NODE_PROPS in next ==> next[NODE_PROPS] == report[NODE_PROPS])
  {
    if NODE_PROPS in report && report[NODE_PROPS].Props? {
      assert report[NODE_PROPS] == Props(report[NODE_PROPS].props);
    }
  }

  /** Desired properties are sent whole in every answer, reported or not. */
  lemma PropsAlwaysSent(desire: Desire, report: Desire)
    ensures NODE_PROPS in desire ==>
              NODE_PROPS in Delta(desire, report) && Delta(desire, report)[NODE_PROPS] == Some(desire[NODE_PROPS])
    ensures NODE_PROPS !in desire ==> (NODE_PROPS in Delta(desire, report) <==> NODE_PROPS in report)
  {
    DiffMentions(desire, ExtractComparingReport(report));
  }
}
