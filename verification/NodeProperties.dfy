/** Desired node properties and the metadata that dates them (service/node.go). */
module NodeProperties {
  import opened Model
  import opened Sync

  type PropMap = map<string, string>

  function DesiredProps(desire: Desire): PropMap {
    if NODE_PROPS in desire && desire[NODE_PROPS].Props? then desire[NODE_PROPS].props else map[]
  }

  /** Keys whose value changes are dated now; keys that go lose their date. */
  ghost function Dated(meta: PropMap, previous: PropMap, props: PropMap, now: string): PropMap {
    var diff := DiffWithNil(props, previous);
    (map k | k in meta && k !in diff :: meta[k]) + (map k | k in diff && diff[k].Some? :: now)
  }

  class Node {
    var desire: Desire
    var desireMeta: PropMap

    constructor (desire: Desire)
      ensures this.desire == desire && desireMeta == map[]
    {
      this.desire, desireMeta := desire, map[];
    }

    method UpdateNodeProperties(props: PropMap, now: string)
      modifies this
      ensures desire == old(desire)[NODE_PROPS := Props(props)]
      ensures desireMeta == Dated(old(desireMeta), DesiredProps(old(desire)), props, now)
    {
      var oldDesire: PropMap := map[];
      if NODE_PROPS in desire && desire[NODE_PROPS].Props? {
        oldDesire := desire[NODE_PROPS].props;
      }
      var diff := DiffWithNil(props, oldDesire);
      desireMeta := RefreshMeta(desireMeta, diff, now);
      desire := desire[NODE_PROPS := Props(props)];
    }
  }

  method RefreshMeta(was: PropMap, diff: Patch<string>, now: string) returns (meta: PropMap)
    ensures meta == (map k | k in was && k !in diff :: was[k]) + (map k | k in diff && diff[k].Some? :: now)
  {
    meta := was;
    var keys := diff.Keys;
    assert PartDated(was, diff, keys, now) == was;
    while keys != {}
      invariant keys <= diff.Keys
      invariant meta == PartDated(was, diff, keys, now)
      decreases keys
    {
      var key :| key in keys;
      PartDatedStep(was, diff, keys, key, now);
      meta := meta[key := now];
      if diff[key].None? {
        meta := meta - {key};
      }
      keys := keys - {key};
    }
  }

  /** The metadata part way through, with the changes to the keys in `left` still to be made. */
  ghost function PartDated(meta: PropMap, diff: Patch<string>, left: set<string>, now: string): PropMap {
    (map k | k in meta && (k !in diff || k in left) :: meta[k]) +
    (map k | k in diff && k !in left && diff[k].Some? :: now)
  }

  lemma PartDatedAt(meta: PropMap, diff: Patch<string>, left: set<string>, now: string, k: string)
    requires left <= diff.Keys
    ensures k !in diff || k in left ==> Agree(PartDated(meta, diff, left, now), meta, k)
    ensures k in diff && k !in left && diff[k].Some? ==>
              k in PartDated(meta, diff, left, now) && PartDated(meta, diff, left, now)[k] == now
    ensures k in diff && k !in left && diff[k].None? ==> k !in PartDated(meta, diff, left, now)
  {
  }

  ghost predicate Agree(a: PropMap, b: PropMap, k: string) {
    (k in a <==> k in b) && (k in a && k in b ==> a[k] == b[k])
  }

  lemma AgreeEverywhere(a: PropMap, b: PropMap)
    requires forall k :: Agree(a, b, k)
    ensures a == b
  {
    forall k ensures k in a <==> k in b {
      assert Agree(a, b, k);
    }
    forall k | k in a ensures a[k] == b[k] {
      assert Agree(a, b, k);
    }
  }

  lemma PartDatedStep(meta: PropMap, diff: Patch<string>, left: set<string>, key: string, now: string)
    requires key in left && left <= diff.Keys
    ensures PartDated(meta, diff, left - {key}, now)
         == if diff[key].None? then PartDated(meta, diff, left, now)[key := now] - {key}
            else PartDated(meta, diff, left, now)[key := now]
  {
    var m := PartDated(meta, diff, left, now)[key := now];
    var expected := if diff[key].None? then m - {key} else m;
    forall k ensures Agree(PartDated(meta, diff, left - {key}, now), expected, k) {
      PartDatedAt(meta, diff, left - {key}, now, k);
      PartDatedAt(meta, diff, left, now, k);
    }
    AgreeEverywhere(PartDated(meta, diff, left - {key}, now), expected);
  }

  // ----- runs -----

  datatype State = State(desire: Desire, meta: PropMap)

  datatype Event =
    | SetProps(props: PropMap, now: string)
    | Report
    | Rematch(user: seq<AppInfo>, sys: seq<AppInfo>)

  /** Reports leave desires alone; a node update replaces the two app lists and keeps attributes. */
  ghost function Next(s: State, e: Event): State {
    match e
    case SetProps(props, now) =>
      State(s.desire[NODE_PROPS := Props(props)], Dated(s.meta, DesiredProps(s.desire), props, now))
    case Report => s
    case Rematch(user, sys) => s.(desire := s.desire + map[APPS := Infos(user), SYSAPPS := Infos(sys)])
  }

  ghost predicate Trace(states: seq<State>, events: seq<Event>) {
    && |states| == |events| + 1
    && states[0].meta == map[] && DesiredProps(states[0].desire) == map[]
    && forall k | 0 <= k < |events| :: states[k + 1] == Next(states[k], events[k])
  }

  ghost predicate HasValue(s: State, key: string, value: string) {
    key in DesiredProps(s.desire) && DesiredProps(s.desire)[key] == value
  }

  /** `j` is the step that gave `key` the value it has kept up to step `k`. */
  ghost predicate SetAt(states: seq<State>, events: seq<Event>, j: nat, k: nat, key: string)
    requires |states| == |events| + 1 && k < |states|
  {
    && j < k && events[j].SetProps? && key in events[j].props
    && !HasValue(states[j], key, events[j].props[key])
    && forall i | j < i <= k :: HasValue(states[i], key, events[j].props[key])
  }

  ghost predicate Dates(states: seq<State>, events: seq<Event>, k: nat)
    requires |states| == |events| + 1 && k < |states|
  {
    && states[k].meta.Keys == DesiredProps(states[k].desire).Keys
    && forall key | key in states[k].meta ::
         exists j: nat :: SetAt(states, events, j, k, key) && states[k].meta[key] == events[j].now
  }

  /** Over every run, exactly the desired properties have metadata, and it is the time at which the
      property was given the value it still has. */
  lemma {:induction false} TraceDates(states: seq<State>, events: seq<Event>, k: nat)
    requires Trace(states, events) && k < |states|
    ensures Dates(states, events, k)
  {
    if k > 0 {
      TraceDates(states, events, k - 1);
      StepDates(states, events, k - 1);
    }
  }

  lemma StepDates(states: seq<State>, events: seq<Event>, k: nat)
    requires Trace(states, events) && k < |events| && Dates(states, events, k)
    ensures Dates(states, events, k + 1)
  {
    var s, s', e := states[k], states[k + 1], events[k];
    StepKeys(s, e);
    forall key | key in s'.meta
      ensures exists j: nat :: SetAt(states, events, j, k + 1, key) && s'.meta[key] == events[j].now
    {
      var value := DesiredProps(s'.desire)[key];
      if HasValue(s, key, value) {
        var j: nat :| SetAt(states, events, j, k, key) && s.meta[key] == events[j].now;
        assert HasValue(states[k], key, events[j].props[key]);
        StepKeepsDate(s, e, key, value);
        assert SetAt(states, events, j, k + 1, key);
      } else {
        StepSetsDate(s, e, key, value);
        assert SetAt(states, events, k, k + 1, key);
      }
    }
  }

  lemma StepKeys(s: State, e: Event)
    requires s.meta.Keys == DesiredProps(s.desire).Keys
    ensures Next(s, e).meta.Keys == DesiredProps(Next(s, e).desire).Keys
  {
    if e.SetProps? {
      DiffMentions(e.props, DesiredProps(s.desire));
    }
  }

  lemma StepKeepsDate(s: State, e: Event, key: string, value: string)
    requires s.meta.Keys == DesiredProps(s.desire).Keys
    requires HasValue(s, key, value) && HasValue(Next(s, e), key, value)
    ensures key in Next(s, e).meta && Next(s, e).meta[key] == s.meta[key]
  {
    if e.SetProps? {
      DiffMentions(e.props, DesiredProps(s.desire));
    }
  }

  lemma StepSetsDate(s: State, e: Event, key: string, value: string)
    requires !HasValue(s, key, value) && HasValue(Next(s, e), key, value)
    ensures e.SetProps? && key in e.props && e.props[key] == value
    ensures key in Next(s, e).meta && Next(s, e).meta[key] == e.now
  {
    if e.SetProps? {
      DiffMentions(e.props, DesiredProps(s.desire));
    }
  }
}
