/** Creating nodes under a quota: lock, check, create and unlock are separate steps of concurrent
    requests (server/admin_server.go, common/context.go, service/quota.go), and deletions take no lock. */
module NodeQuota {
  import opened Collections

  const NODE_COUNT := "maxNodeCount"

  /** A quota that is missing or zero does not limit. */
  ghost predicate Exceeded(counts: map<string, int>, limits: map<string, int>, k: string) {
    k in counts && k in limits && limits[k] != 0 && counts[k] >= limits[k]
  }

  method CheckQuota(counts: map<string, int>, limits: map<string, int>) returns (ok: bool)
    ensures ok <==> forall k :: !Exceeded(counts, limits, k)
  {
    var keys := counts.Keys;
    while keys != {}
      invariant keys <= counts.Keys
      invariant forall k | k in counts && k !in keys :: !Exceeded(counts, limits, k)
      decreases keys
    {
      var k :| k in keys;
      var limit := if k in limits then limits[k] else 0;
      if limit != 0 && counts[k] >= limit {
        assert Exceeded(counts, limits, k);
        return false;
      }
      keys := keys - {k};
    }
    return true;
  }

  // ----- the handler chain as steps -----

  /** Requests holding the lock; among them those still to be checked and those that passed and have
      not created their node yet. */
  datatype State = State(nodes: set<string>, holding: set<int>, unchecked: set<int>, passed: set<int>)

  datatype Event =
    | Lock(req: int)
    | Check(req: int)
    | Create(req: int, node: string)
    | Unlock(req: int)
    | Delete(node: string)

  ghost function Counts(s: State): map<string, int> {
    map[NODE_COUNT := |s.nodes|]
  }

  /** `holders` is how many requests the lock plugin lets in at once: one for a lock that excludes. */
  ghost predicate Enabled(s: State, e: Event, holders: nat) {
    match e
    case Lock(req) => req !in s.holding && |s.holding| < holders
    case Check(req) => req in s.unchecked
    case Create(req, node) => req in s.passed && node !in s.nodes
    case Unlock(req) => req in s.holding
    case Delete(_) => true
  }

  /** A failed check leaves nothing to do but unlock. A request creates at most one node. */
  ghost function Next(s: State, e: Event, limits: map<string, int>): State {
    match e
    case Lock(req) => s.(holding := s.holding + {req}, unchecked := s.unchecked + {req})
    case Check(req) =>
      if forall k :: !Exceeded(Counts(s), limits, k)
      then s.(unchecked := s.unchecked - {req}, passed := s.passed + {req})
      else s.(unchecked := s.unchecked - {req})
    case Create(req, node) => s.(nodes := s.nodes + {node}, passed := s.passed - {req})
    case Unlock(req) =>
      s.(holding := s.holding - {req}, unchecked := s.unchecked - {req}, passed := s.passed - {req})
    case Delete(node) => s.(nodes := s.nodes - {node})
  }

  ghost predicate Trace(states: seq<State>, events: seq<Event>, limits: map<string, int>, holders: nat) {
    && |states| == |events| + 1
    && states[0] == State(states[0].nodes, {}, {}, {})
    && forall k | 0 <= k < |events| ::
         Enabled(states[k], events[k], holders) && states[k + 1] == Next(states[k], events[k], limits)
  }

  ghost predicate Bounded(s: State, limit: int, holders: nat) {
    && s.unchecked + s.passed <= s.holding && |s.holding| <= holders
    && |s.nodes| + |s.passed| <= limit + holders - 1
  }

  lemma NextBounded(s: State, e: Event, limits: map<string, int>, holders: nat)
    requires NODE_COUNT in limits && limits[NODE_COUNT] > 0
    requires Bounded(s, limits[NODE_COUNT], holders) && Enabled(s, e, holders)
    ensures Bounded(Next(s, e, limits), limits[NODE_COUNT], holders)
  {
    var s' := Next(s, e, limits);
    match e
    case Lock(req) =>
    case Check(req) =>
      if forall k :: !Exceeded(Counts(s), limits, k) {
        assert !Exceeded(Counts(s), limits, NODE_COUNT);
        SubsetCount(s'.passed, s.holding);
      }
    case Create(req, node) =>
    case Unlock(req) =>
      SubsetCount(s'.holding, s.holding);
      SubsetCount(s'.passed, s.passed);
    case Delete(node) =>
      SubsetCount(s'.nodes, s.nodes);
  }

  /** With at most `holders` requests inside the lock at once, the count exceeds the limit by less
      than `holders`, in every state of every interleaving. */
  lemma {:induction false} TraceBounded(states: seq<State>, events: seq<Event>, limits: map<string, int>, holders: nat,
                                        k: nat)
    requires NODE_COUNT in limits && limits[NODE_COUNT] > 0 && holders > 0
    requires Trace(states, events, limits, holders) && |states[0].nodes| <= limits[NODE_COUNT]
    requires k < |states|
    ensures Bounded(states[k], limits[NODE_COUNT], holders)
  {
    if k > 0 {
      TraceBounded(states, events, limits, holders, k - 1);
      NextBounded(states[k - 1], events[k - 1], limits, holders);
    }
  }

  /** Under a lock that admits one request at a time, no interleaving takes the count past the limit. */
  lemma NeverPastLimit(states: seq<State>, events: seq<Event>, limits: map<string, int>, k: nat)
    requires NODE_COUNT in limits && limits[NODE_COUNT] > 0
    requires Trace(states, events, limits, 1) && |states[0].nodes| <= limits[NODE_COUNT] && k < |states|
    ensures |states[k].nodes| <= limits[NODE_COUNT]
  {
    TraceBounded(states, events, limits, 1, k);
  }

  // ----- the bound is reached without exclusion -----

  function Name(j: nat): (name: string)
    ensures |name| == j
  {
    seq(j, _ => 'n')
  }

  ghost function Names(k: nat): set<string> {
    set j | 0 <= j < k :: Name(j)
  }

  ghost function Requests(lo: nat, hi: nat): (reqs: set<int>)
    ensures forall r :: r in reqs <==> lo <= r < hi
  {
    if lo >= hi then {} else Requests(lo, hi - 1) + {hi - 1}
  }

  lemma NamesCount(k: nat)
    ensures |Names(k)| == k && forall j: nat | j >= k :: Name(j) !in Names(k)
  {
    if k == 0 {
      assert Names(0) == {};
    } else {
      NamesCount(k - 1);
      assert Names(k) == Names(k - 1) + {Name(k - 1)};
    }
    forall j: nat | j >= k ensures Name(j) !in Names(k) {
      assert forall x | x in Names(k) :: |x| < k;
    }
  }

  lemma NamesNext(k: nat)
    ensures Names(k + 1) == Names(k) + {Name(k)} && Name(k) !in Names(k)
  {
    NamesCount(k);
  }

  lemma {:induction false} RequestsCount(k: nat)
    ensures |Requests(0, k)| == k
  {
    if k == 0 {
      assert Requests(0, 0) == {};
    } else {
      RequestsCount(k - 1);
      assert Requests(0, k) == Requests(0, k - 1) + {k - 1};
    }
  }

  lemma Extend(states: seq<State>, events: seq<Event>, e: Event, limits: map<string, int>, holders: nat)
    returns (states': seq<State>, events': seq<Event>)
    requires Trace(states, events, limits, holders) && Enabled(states[|events|], e, holders)
    ensures Trace(states', events', limits, holders)
    ensures states'[0] == states[0] && states'[|events'|] == Next(states[|events|], e, limits)
  {
    states', events' := states + [Next(states[|events|], e, limits)], events + [e];
  }

  lemma LockAll(limit: nat, i: nat, limits: map<string, int>, holders: nat)
    returns (states: seq<State>, events: seq<Event>)
    requires i <= holders
    ensures Trace(states, events, limits, holders) && states[0].nodes == Names(limit)
    ensures states[|events|] == State(Names(limit), Requests(0, i), Requests(0, i), {})
  {
    if i == 0 {
      states, events := [State(Names(limit), {}, {}, {})], [];
      assert Requests(0, 0) == {};
    } else {
      states, events := LockAll(limit, i - 1, limits, holders);
      RequestsCount(i - 1);
      assert Requests(0, i) == Requests(0, i - 1) + {i - 1};
      states, events := Extend(states, events, Lock(i - 1), limits, holders);
    }
  }

  lemma CheckAll(limit: nat, i: nat, limits: map<string, int>, holders: nat)
    returns (states: seq<State>, events: seq<Event>)
    requires i <= holders && limits == map[NODE_COUNT := limit + 1]
    ensures Trace(states, events, limits, holders) && states[0].nodes == Names(limit)
    ensures states[|events|] == State(Names(limit), Requests(0, holders), Requests(i, holders), Requests(0, i))
  {
    if i == 0 {
      states, events := LockAll(limit, holders, limits, holders);
      assert Requests(0, 0) == {};
    } else {
      states, events := CheckAll(limit, i - 1, limits, holders);
      var s := states[|events|];
      NamesCount(limit);
      assert forall k :: !Exceeded(Counts(s), limits, k);
      assert Requests(0, i) == Requests(0, i - 1) + {i - 1};
      assert Requests(i, holders) == Requests(i - 1, holders) - {i - 1};
      states, events := Extend(states, events, Check(i - 1), limits, holders);
    }
  }

  lemma CreateAll(limit: nat, i: nat, limits: map<string, int>, holders: nat)
    returns (states: seq<State>, events: seq<Event>)
    requires i <= holders && limits == map[NODE_COUNT := limit + 1]
    ensures Trace(states, events, limits, holders) && states[0].nodes == Names(limit)
    ensures states[|events|] == State(Names(limit + i), Requests(0, holders), {}, Requests(i, holders))
  {
    if i == 0 {
      states, events := CheckAll(limit, holders, limits, holders);
      assert Requests(holders, holders) == {};
    } else {
      states, events := CreateAll(limit, i - 1, limits, holders);
      NamesNext(limit + i - 1);
      assert Requests(i, holders) == Requests(i - 1, holders) - {i - 1};
      states, events := Extend(states, events, Create(i - 1, Name(limit + i - 1)), limits, holders);
    }
  }

  /** A lock that admits `holders` requests at once (the default plugin admits all) can be overshot
      by exactly `holders - 1`, so exclusion is what the quota rests on. */
  lemma BoundReached(limit: nat, holders: nat) returns (states: seq<State>, events: seq<Event>)
    ensures Trace(states, events, map[NODE_COUNT := limit + 1], holders)
    ensures |states[0].nodes| == limit
    ensures |states[|events|].nodes| == (limit + 1) + holders - 1
  {
    states, events := CreateAll(limit, holders, map[NODE_COUNT := limit + 1], holders);
    NamesCount(limit);
    NamesCount(limit + holders);
  }

  /** Without a limit on nodes, or with limit zero, no check fails however many there are. */
  lemma UnlimitedPasses(s: State, req: int, limits: map<string, int>)
    requires NODE_COUNT in limits ==> limits[NODE_COUNT] == 0
    ensures req in Next(s, Check(req), limits).passed
  {
    assert forall k :: !Exceeded(Counts(s), limits, k);
  }

  // ----- what a check decides -----

  /** The request has been checked and has nothing left to create. */
  ghost predicate Outside(s: State, req: int) {
    req !in s.unchecked && req !in s.passed
  }

  lemma Refused(s: State, req: int, limits: map<string, int>, holders: nat)
    requires Enabled(s, Check(req), holders) && req !in s.passed && req !in Next(s, Check(req), limits).passed
    ensures Outside(Next(s, Check(req), limits), req)
  {
  }

  lemma OutsideStep(states: seq<State>, events: seq<Event>, limits: map<string, int>, holders: nat, k: nat, req: int)
    requires Trace(states, events, limits, holders) && k < |events| && Outside(states[k], req)
    requires events[k] != Lock(req)
    ensures Outside(states[k + 1], req)
  {
    assert Enabled(states[k], events[k], holders) && states[k + 1] == Next(states[k], events[k], limits);
  }

  /** A request that was refused creates nothing, in every interleaving, unless it takes the lock again. */
  lemma {:induction false} RefusedStaysOut(states: seq<State>, events: seq<Event>, limits: map<string, int>,
                                           holders: nat, from: nat, to: nat, req: int, node: string)
    requires Trace(states, events, limits, holders) && from <= to < |states| && Outside(states[from], req)
    requires Lock(req) !in events[from..to]
    ensures Outside(states[to], req) && !Enabled(states[to], Create(req, node), holders)
  {
    if from < to {
      assert events[from..to] == events[from..to - 1] + [events[to - 1]];
      RefusedStaysOut(states, events, limits, holders, from, to - 1, req, node);
      OutsideStep(states, events, limits, holders, to - 1, req);
    }
  }

  /** Deleting a node at the limit makes room for the next. */
  lemma DeletionMakesRoom(s: State, node: string, req: int, limits: map<string, int>)
    requires NODE_COUNT in limits && limits[NODE_COUNT] > 0 && node in s.nodes && |s.nodes| == limits[NODE_COUNT]
    ensures req !in s.passed ==> req !in Next(s, Check(req), limits).passed
    ensures req in Next(Next(s, Delete(node), limits), Check(req), limits).passed
  {
    assert Exceeded(Counts(s), limits, NODE_COUNT);
    var s' := Next(s, Delete(node), limits);
    assert |s'.nodes| == |s.nodes| - 1;
    assert forall k :: !Exceeded(Counts(s'), limits, k);
  }
}
