/** The report cache under interleaving. A report is stored before its document is published; a fill
    reads the table first and writes the cache later, name by name, in the background. */
module ReadThrough {
  import opened Model
  import opened ReportCache

  type Docs = map<string, string>

  /** A report that is in the table and has not been published to the cache yet. */
  datatype Ticket = Ticket(name: string, doc: string)

  /** `fills` are the answers of the table that background fills have still to write. */
  datatype State = State(store: Docs, tickets: map<nat, Ticket>, reports: Docs, fills: map<nat, Docs>)

  datatype Event =
    | Store(id: nat, name: string, doc: string)
    | Publish(id: nat)
    | DeleteRow(name: string)
    | Drop(name: string)
    | Read(id: nat, names: seq<string>)
    | Write(id: nat, name: string)

  const START := State(map[], map[], map[], map[])

  ghost predicate Enabled(s: State, e: Event) {
    match e
    case Store(id, _, _) => id !in s.tickets
    case Publish(id) => id in s.tickets
    case Write(id, _) => id in s.fills
    case _ => true
  }

  /** What a fill writes for a name: the document it read, or the empty one. */
  ghost function Written(found: Docs, name: string): string {
    if name in found then found[name] else EMPTY_REPORT
  }

  ghost function Next(s: State, e: Event): State
    requires Enabled(s, e)
  {
    match e
    case Store(id, name, doc) => s.(store := s.store[name := doc], tickets := s.tickets[id := Ticket(name, doc)])
    case Publish(id) =>
      s.(tickets := s.tickets - {id}, reports := s.reports[s.tickets[id].name := s.tickets[id].doc])
    case DeleteRow(name) => s.(store := s.store - {name})
    case Drop(name) => s.(reports := s.reports - {name})
    case Read(id, names) => s.(fills := s.fills[id := map n | n in names && n in s.store :: s.store[n]])
    case Write(id, name) => s.(reports := s.reports[name := Written(s.fills[id], name)])
  }

  // ----- agreement -----

  ghost predicate OnTheWay(s: State, n: string)
    requires n in s.store
  {
    exists i :: i in s.tickets && s.tickets[i] == Ticket(n, s.store[n])
  }

  /** A cached document differs from the stored one only while the stored one is still to be published. */
  ghost predicate NodeAgrees(s: State, n: string)
    requires n in s.store
  {
    n in s.reports && s.reports[n] != s.store[n] ==> OnTheWay(s, n)
  }

  ghost predicate Agrees(s: State) {
    forall n | n in s.store :: NodeAgrees(s, n)
  }

  /** A document may be published if it is the stored one or the stored one is still to follow, and a
      fill may write a name if what it read is what is stored now, or that is still to follow. */
  ghost predicate Timely(s: State, e: Event)
    requires Enabled(s, e)
  {
    match e
    case Publish(id) =>
      var t := s.tickets[id];
      t.name in s.store && s.store[t.name] != t.doc ==>
        exists i :: i in s.tickets && i != id && s.tickets[i] == Ticket(t.name, s.store[t.name])
    case Write(id, name) =>
      name in s.store && s.store[name] != Written(s.fills[id], name) ==> OnTheWay(s, name)
    case _ => true
  }

  lemma Unchanged(s: State, s': State, n: string)
    requires n in s.store && n in s'.store && s'.store[n] == s.store[n] && NodeAgrees(s, n)
    requires n in s'.reports ==> n in s.reports && s'.reports[n] == s.reports[n]
    requires forall i | i in s.tickets && s.tickets[i].name == n :: i in s'.tickets && s'.tickets[i] == s.tickets[i]
    ensures NodeAgrees(s', n)
  {
    if i :| i in s.tickets && s.tickets[i] == Ticket(n, s.store[n]) {
      assert s'.tickets[i] == Ticket(n, s'.store[n]);
    }
  }

  lemma PublishAgreesIff(s: State, id: nat)
    requires Agrees(s) && Enabled(s, Publish(id))
    ensures Agrees(Next(s, Publish(id))) <==> Timely(s, Publish(id))
  {
    var s', t := Next(s, Publish(id)), s.tickets[id];
    forall n | n in s.store && n != t.name ensures NodeAgrees(s', n) {
      assert NodeAgrees(s, n);
      Unchanged(s, s', n);
    }
    if t.name in s.store {
      if i :| i in s.tickets && i != id && s.tickets[i] == Ticket(t.name, s.store[t.name]) {
        assert s'.tickets[i] == s.tickets[i];
        assert OnTheWay(s', t.name);
      } else {
        assert NodeAgrees(s', t.name) <==> s.store[t.name] == t.doc;
      }
    }
  }

  lemma WriteAgreesIff(s: State, id: nat, name: string)
    requires Agrees(s) && Enabled(s, Write(id, name))
    ensures Agrees(Next(s, Write(id, name))) <==> Timely(s, Write(id, name))
  {
    var s' := Next(s, Write(id, name));
    forall n | n in s.store && n != name ensures NodeAgrees(s', n) {
      assert NodeAgrees(s, n);
      Unchanged(s, s', n);
    }
    if name in s.store {
      assert OnTheWay(s', name) <==> OnTheWay(s, name);
      assert s'.reports[name] == Written(s.fills[id], name);
    }
  }

  lemma OtherAgrees(s: State, e: Event)
    requires Agrees(s) && Enabled(s, e) && !e.Publish? && !e.Write?
    ensures Agrees(Next(s, e))
  {
    var s' := Next(s, e);
    forall n | n in s'.store ensures NodeAgrees(s', n) {
      if e.Store? && n == e.name {
        assert s'.tickets[e.id] == Ticket(n, s'.store[n]);
      } else {
        assert NodeAgrees(s, n);
        Unchanged(s, s', n);
      }
    }
  }

  /** Step by step, the cache stays in agreement exactly when the step is timely. */
  lemma NextAgreesIff(s: State, e: Event)
    requires Agrees(s) && Enabled(s, e)
    ensures Agrees(Next(s, e)) <==> Timely(s, e)
  {
    match e
    case Publish(id) => PublishAgreesIff(s, id);
    case Write(id, name) => WriteAgreesIff(s, id, name);
    case _ => OtherAgrees(s, e);
  }

  // ----- whole runs -----

  ghost predicate Trace(states: seq<State>, events: seq<Event>) {
    && |states| == |events| + 1 && states[0] == START
    && forall k | 0 <= k < |events| :: Enabled(states[k], events[k]) && states[k + 1] == Next(states[k], events[k])
  }

  ghost predicate AlwaysAgrees(states: seq<State>) {
    forall k | 0 <= k < |states| :: Agrees(states[k])
  }

  ghost predicate AlwaysTimely(states: seq<State>, events: seq<Event>)
    requires Trace(states, events)
  {
    forall k | 0 <= k < |events| :: Timely(states[k], events[k])
  }

  lemma {:induction false} TimelyAgrees(states: seq<State>, events: seq<Event>, k: nat)
    requires Trace(states, events) && AlwaysTimely(states, events) && k < |states|
    ensures Agrees(states[k])
  {
    if k > 0 {
      TimelyAgrees(states, events, k - 1);
      NextAgreesIff(states[k - 1], events[k - 1]);
    }
  }

  /** An interleaving is in agreement throughout exactly when every step of it is timely. */
  lemma TraceAgreesIff(states: seq<State>, events: seq<Event>)
    requires Trace(states, events)
    ensures AlwaysAgrees(states) <==> AlwaysTimely(states, events)
  {
    if AlwaysTimely(states, events) {
      forall k | 0 <= k < |states| ensures Agrees(states[k]) {
        TimelyAgrees(states, events, k);
      }
    }
    if AlwaysAgrees(states) {
      forall k | 0 <= k < |events| ensures Timely(states[k], events[k]) {
        assert Agrees(states[k]) && Agrees(states[k + 1]);
        NextAgreesIff(states[k], events[k]);
      }
    }
  }

  // ----- what a fill may have missed -----

  /** The last document reported for a name in a stretch of the run. */
  ghost function LastReported(events: seq<Event>, name: string): Option<string> {
    if events == [] then None
    else
      var e := events[|events| - 1];
      if e.Store? && e.name == name then Some(e.doc) else LastReported(events[..|events| - 1], name)
  }

  /** The table at the end of the stretch holds the last document reported in it, or what it held before. */
  lemma {:induction false} StoredSince(states: seq<State>, events: seq<Event>, r: nat, w: nat, name: string)
    requires Trace(states, events) && r <= w < |states| && name in states[w].store
    ensures var last := LastReported(events[r..w], name);
            && (last.Some? ==> states[w].store[name] == last.value)
            && (last.None? ==> name in states[r].store && states[w].store[name] == states[r].store[name])
  {
    if r < w {
      var stretch := events[r..w];
      assert stretch[..|stretch| - 1] == events[r..w - 1] && stretch[|stretch| - 1] == events[w - 1];
      if !(events[w - 1].Store? && events[w - 1].name == name) {
        StoredSince(states, events, r, w - 1, name);
      }
    }
  }

  /** The answer a fill works with is the table's at the time of the read. */
  lemma {:induction false} FillKept(states: seq<State>, events: seq<Event>, r: nat, w: nat, id: nat)
    requires Trace(states, events) && r < w < |states| && events[r].Read? && events[r].id == id
    requires forall k | r < k < w :: !(events[k].Read? && events[k].id == id)
    ensures id in states[w].fills
    ensures states[w].fills[id] == map n | n in events[r].names && n in states[r].store :: states[r].store[n]
  {
    if r + 1 < w {
      FillKept(states, events, r, w - 1, id);
    } else {
      assert states[w] == Next(states[r], events[r]);
    }
  }

  /** What the fill found for the name. */
  ghost function Found(s: State, name: string): string {
    if name in s.store then s.store[name] else EMPTY_REPORT
  }

  /** Once a fill has written a name that has a row, the cache agrees with the table about it exactly
      when the last document reported for it since the fill's read, if any, is the one the fill read. */
  lemma FillAgreesIff(states: seq<State>, events: seq<Event>, r: nat, w: nat, id: nat, name: string)
    requires Trace(states, events) && r < w < |events|
    requires events[r].Read? && events[r].id == id && name in events[r].names
    requires forall k | r < k < w :: !(events[k].Read? && events[k].id == id)
    requires events[w] == Write(id, name) && name in states[w].store
    ensures name in states[w + 1].reports && name in states[w + 1].store
    ensures states[w + 1].reports[name] == states[w + 1].store[name] <==>
            var last := LastReported(events[r + 1..w], name);
            last.None? || last.value == Found(states[r], name)
  {
    FillKept(states, events, r, w, id);
    StoredSince(states, events, r + 1, w, name);
    assert states[r + 1] == Next(states[r], events[r]);
    assert states[w + 1] == Next(states[w], events[w]);
  }

  // ----- a fill that undoes a report -----

  ghost function Reach(s: State, events: seq<Event>): Option<State> {
    if events == [] then Some(s)
    else
      var before, e := Reach(s, events[..|events| - 1]), events[|events| - 1];
      if before.Some? && Enabled(before.value, e) then Some(Next(before.value, e)) else None
  }

  lemma ReachNext(s: State, events: seq<Event>, e: Event)
    requires Reach(s, events).Some? && Enabled(Reach(s, events).value, e)
    ensures Reach(s, events + [e]) == Some(Next(Reach(s, events).value, e))
  {
    assert (events + [e])[..|events + [e]| - 1] == events;
  }

  lemma Reported(s: State, events: seq<Event>, n: string, doc: string) returns (events': seq<Event>)
    requires Reach(START, events) == Some(s) && s.tickets == map[]
    ensures Reach(START, events') == Some(s.(store := s.store[n := doc], reports := s.reports[n := doc]))
  {
    ReachNext(START, events, Store(0, n, doc));
    var s1 := Next(s, Store(0, n, doc));
    ReachNext(START, events + [Store(0, n, doc)], Publish(0));
    assert s1.tickets - {0} == map[];
    events' := events + [Store(0, n, doc)] + [Publish(0)];
  }

  /** A node reports after a fill has read its row and before the fill writes it: the old document stays
      in the cache although nothing is still to be published. */
  lemma FillUndoesReport(n: string, d0: string, d1: string) returns (events: seq<Event>, s: State)
    requires d0 != d1
    ensures Reach(START, events) == Some(s) && s.tickets == map[]
    ensures n in s.store && n in s.reports && s.reports[n] == d0 && s.store[n] == d1
  {
    events := Reported(START, [], n, d0);
    var s1 := START.(store := map[n := d0], reports := map[n := d0]);
    assert START.store[n := d0] == s1.store && START.reports[n := d0] == s1.reports;
    ReachNext(START, events, Read(0, [n]));
    var s2 := Next(s1, Read(0, [n]));
    events := Reported(s2, events + [Read(0, [n])], n, d1);
    var s3 := s2.(store := s2.store[n := d1], reports := s2.reports[n := d1]);
    ReachNext(START, events, Write(0, n));
    s := Next(s3, Write(0, n));
    events := events + [Write(0, n)];
  }

  // ----- the cache object performs these steps -----

  ghost function Writes(id: nat, names: seq<string>): seq<Event> {
    seq(|names|, i requires 0 <= i < |names| => Write(id, names[i]))
  }

  ghost function Optional(found: Docs): map<string, Option<string>> {
    map n | n in found :: Some(found[n])
  }

  lemma {:induction false} WritesReach(s: State, id: nat, names: seq<string>)
    requires id in s.fills
    ensures Reach(s, Writes(id, names)) == Some(s.(reports := Filled(s.reports, Optional(s.fills[id]), names)))
  {
    var found := Optional(s.fills[id]);
    if names == [] {
      assert Filled(s.reports, found, names) == s.reports;
    } else {
      var init, last := names[..|names| - 1], names[|names| - 1];
      assert names == init + [last] && Writes(id, names)[..|names| - 1] == Writes(id, init);
      WritesReach(s, id, init);
      FilledStep(s.reports, found, init, last);
    }
  }

  /** The background fill writes the cache as the machine's steps do, name by name. */
  method FillCache(cache: Cache, ghost s: State, ghost id: nat, reportMap: map<string, Option<string>>,
                   names: seq<string>)
    returns (ghost events: seq<Event>)
    requires cache.reports == s.reports && id in s.fills && reportMap == Optional(s.fills[id])
    modifies cache
    ensures Reach(s, events) == Some(s.(reports := cache.reports))
  {
    WritesReach(s, id, names);
    events := Writes(id, names);
    cache.SetShadowReportCache(reportMap, names);
  }

  ghost function DocsOf(store: ReportCache.Store): Docs {
    map n | n in store :: store[n].report
  }

  /** A bulk read asks the table for the names and keeps the answer for the fill it starts. */
  method ReadRows(cache: Cache, ghost s: State, ghost id: nat, store: ReportCache.Store, names: seq<string>, now: int)
    returns (reportMap: map<string, Option<string>>, filling: bool)
    requires s.store == DocsOf(store)
    modifies cache
    ensures id in Next(s, Read(id, names)).fills
    ensures reportMap == Optional(Next(s, Read(id, names)).fills[id])
    ensures filling <==> old(cache.reportLock).None?
    ensures cache.reports == old(cache.reports)
  {
    reportMap, filling := cache.SetShadowReportCacheByNames(store, names, now);
  }

  /** A stored report is published as the machine does it. */
  method PublishReport(cache: Cache, ghost s: State, ghost id: nat, name: string, row: Row, at: int, tick: bool,
                       now: int)
    returns (ghost events: seq<Event>)
    requires cache.reports == s.reports && id in s.tickets && s.tickets[id] == Ticket(name, row.report)
    modifies cache
    ensures Reach(s, events) == Some(s.(tickets := s.tickets - {id}, reports := cache.reports))
  {
    ReachNext(s, [], Publish(id));
    events := [] + [Publish(id)];
    cache.ShadowCreateOrUpdateCacheSet(name, row, at, tick, now);
  }

  /** A deletion drops the document, unless there is no map of report times. */
  method DropReport(cache: Cache, ghost s: State, name: string) returns (ghost events: seq<Event>)
    requires cache.reports == s.reports
    modifies cache
    ensures Reach(s, events) == Some(s.(reports := cache.reports))
    ensures old(cache.times).Some? ==> name !in cache.reports
  {
    events := [];
    if cache.times.Some? {
      ReachNext(s, [], Drop(name));
      events := [] + [Drop(name)];
    }
    cache.ShadowDeleteCache(name);
  }

  ghost predicate NoneStored(events: seq<Event>, from: nat, to: nat, name: string)
    requires to <= |events|
  {
    forall k | from <= k < to :: !(events[k].Store? && events[k].name == name)
  }

  lemma GoneStep(states: seq<State>, events: seq<Event>, k: nat, name: string)
    requires Trace(states, events) && k < |events| && name !in states[k].store
    requires !(events[k].Store? && events[k].name == name)
    ensures name !in states[k + 1].store
  {
    assert states[k + 1] == Next(states[k], events[k]);
  }

  /** A row that is gone stays away until its node reports again, */
  lemma {:induction false} GoneStaysAway(states: seq<State>, events: seq<Event>, from: nat, to: nat, name: string)
    requires Trace(states, events) && from <= to < |states| && name !in states[from].store
    requires NoneStored(events, from, to, name)
    ensures name !in states[to].store
  {
    if from < to {
      GoneStaysAway(states, events, from, to - 1, name);
      assert !(events[to - 1].Store? && events[to - 1].name == name);
      GoneStep(states, events, to - 1, name);
    }
  }

  /** in particular after its deletion. */
  lemma DeletedStaysAway(states: seq<State>, events: seq<Event>, r: nat, w: nat, name: string)
    requires Trace(states, events) && r < w < |states| && events[r] == DeleteRow(name)
    requires NoneStored(events, r + 1, w, name)
    ensures name !in states[w].store
  {
    assert states[r + 1] == Next(states[r], events[r]);
    GoneStaysAway(states, events, r + 1, w, name);
  }
}
