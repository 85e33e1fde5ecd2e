/** The report-time cache under interleaving. A report is stored before it is queued, while a created node's
    first time is queued before its row is committed; a rebuild and a deletion read their copy of the map
    before they write it; a flush works on its own copy. Every other step may fall in between. */
module WriteBehind {
  import opened Collections
  import opened Model
  import opened ReportCache

  /** A flush works on its own copy of the time map until it commits; `loaded` are the entries it has taken. */
  datatype Flush = Flush(local: Times, loaded: set<string>, cutoff: int)

  /** A report that is in the table and has not been queued yet. */
  datatype Ticket = Ticket(name: string, time: string)

  /** `creating` are rows whose transaction is still open; `copies` are the maps read by rebuilds and
      deletions that have not been written yet. */
  datatype State = State(
    store: Store, creating: Store, tickets: map<nat, Ticket>, pending: map<string, Pending>,
    times: Option<Times>, copies: map<nat, Times>, running: Option<Flush>)

  datatype Event =
    | Store(id: nat, name: string, row: Row)
    | Queue(id: nat, at: int)
    | Create(name: string, row: Row, at: int)
    | CommitRow(name: string)
    | RollbackRow(name: string)
    | DeleteRow(name: string)
    | ReadForDelete(id: nat, name: string)
    | Unqueue(name: string)
    | List(id: nat, nodes: seq<string>)
    | Write(id: nat)
    | Evict
    | Begin(cutoff: int)
    | Load(name: string)
    | Remove(name: string)
    | Commit
    | Steal(name: string)

  const START := State(map[], map[], map[], map[], None, map[], None)

  /** Tickets are numbered in the order of the table's commits. One flush runs at a time; it loads only
      entries put there before its cut-off, and removes an entry after it has loaded it. The queue is
      shared by all namespaces, so a flush of another one may take an entry too. */
  ghost predicate Enabled(s: State, e: Event) {
    match e
    case Store(id, _, _) => forall i | i in s.tickets :: i < id
    case Queue(id, _) => id in s.tickets
    case Create(name, _, _) => name !in s.store && name !in s.creating
    case CommitRow(name) => name in s.creating && name !in s.store
    case RollbackRow(name) => name in s.creating
    case ReadForDelete(id, _) => id !in s.copies
    case List(id, _) => id !in s.copies
    case Write(id) => id in s.copies
    case Begin(_) => s.running.None?
    case Load(name) => s.running.Some? && name in s.pending && s.pending[name].at < s.running.value.cutoff
    case Remove(name) => Held(s, name) && name in s.running.value.loaded
    case Commit => s.running.Some?
    case Steal(name) => name in s.pending
    case _ => true
  }

  ghost function Next(s: State, e: Event): State
    requires Enabled(s, e)
  {
    match e
    case Store(id, name, row) => s.(store := s.store[name := row], tickets := s.tickets[id := Ticket(name, row.time)])
    case Queue(id, at) =>
      var t := s.tickets[id];
      s.(tickets := s.tickets - {id}, pending := s.pending[t.name := Pending(t.time, at)])
    case Create(name, row, at) =>
      s.(creating := s.creating[name := row], pending := s.pending[name := Pending(row.time, at)])
    case CommitRow(name) => s.(store := s.store[name := s.creating[name]], creating := s.creating - {name})
    case RollbackRow(name) => s.(creating := s.creating - {name})
    case DeleteRow(name) => s.(store := s.store - {name})
    case ReadForDelete(id, name) =>
      if s.times.None? then s else s.(copies := s.copies[id := s.times.value - {name}])
    case Unqueue(name) => s.(pending := s.pending - {name})
    case List(id, nodes) => s.(copies := s.copies[id := Rebuilt(s.store, nodes)])
    case Write(id) => s.(times := Some(s.copies[id]), copies := s.copies - {id})
    case Evict => s.(times := None)
    case Begin(cutoff) => s.(running := Some(Flush(Base(s.times), {}, cutoff)))
    case Load(name) =>
      var f := s.running.value;
      s.(running := Some(f.(local := f.local[name := s.pending[name].value], loaded := f.loaded + {name})))
    case Remove(name) => s.(pending := s.pending - {name})
    case Commit => s.(times := Some(s.running.value.local), running := None)
    case Steal(name) => s.(pending := s.pending - {name})
  }

  // ----- staleness -----

  ghost predicate OnTheWay(s: State, n: string)
    requires n in s.store
  {
    exists i :: i in s.tickets && s.tickets[i] == Ticket(n, s.store[n].time)
  }

  ghost predicate Held(s: State, n: string) {
    s.running.Some? && n in s.running.value.local
  }

  /** What a reader gets once everything queued or held has been saved. */
  ghost function Shown(s: State, n: string): Option<string> {
    if n in s.pending then Some(s.pending[n].value) else Beneath(s, n)
  }

  ghost function Beneath(s: State, n: string): Option<string> {
    if Held(s, n) then Some(s.running.value.local[n])
    else if s.times.Some? && n in s.times.value then Some(s.times.value[n]) else None
  }

  ghost predicate Right(s: State, n: string, shown: Option<string>)
    requires n in s.store
  {
    OnTheWay(s, n) || shown == None || shown == Some(s.store[n].time)
  }

  /** A time other than the stored one is shown only while the stored one is on its way to the queue. */
  ghost predicate Safe(s: State) {
    forall n | n in s.store :: Right(s, n, Shown(s, n))
  }

  /** Nothing about the node is under way. */
  ghost predicate Quiet(s: State, n: string)
    requires n in s.store
  {
    !OnTheWay(s, n) && n !in s.pending && !Held(s, n)
  }

  /** What a step must meet to keep the cache safe. A report may be queued if it is the stored one or the
      stored one is still to follow; a created row may be committed if nothing else is shown for it; a copy
      may be written if it is right about every node about which nothing is under way; an entry may leave
      the queue unsaved if what lies beneath it says the same. */
  ghost predicate Timely(s: State, e: Event)
    requires Enabled(s, e)
  {
    match e
    case Queue(id, _) =>
      var t := s.tickets[id];
      t.name in s.store && s.store[t.name].time != t.time ==>
        exists i :: i in s.tickets && i != id && s.tickets[i] == Ticket(t.name, s.store[t.name].time)
    case CommitRow(name) =>
      Shown(s, name) == None || Shown(s, name) == Some(s.creating[name].time) ||
      exists i :: i in s.tickets && s.tickets[i] == Ticket(name, s.creating[name].time)
    case Write(id) =>
      forall n | n in s.copies[id] && n in s.store && Quiet(s, n) :: s.copies[id][n] == s.store[n].time
    case Unqueue(name) => name in s.store ==> Right(s, name, Beneath(s, name))
    case Remove(name) => name in s.store ==> Right(s, name, Beneath(s, name))
    case Steal(name) => name in s.store ==> Right(s, name, Beneath(s, name))
    case _ => true
  }

  lemma NothingNewShown(s: State, s': State, n: string)
    requires n in s.store && n in s'.store && s'.store[n] == s.store[n]
    requires s'.tickets == s.tickets && (Shown(s', n) == Shown(s, n) || Shown(s', n) == None)
    requires Right(s, n, Shown(s, n))
    ensures Right(s', n, Shown(s', n))
  {
  }

  lemma StoreSafe(s: State, id: nat, name: string, row: Row)
    requires Safe(s) && Enabled(s, Store(id, name, row))
    ensures Safe(Next(s, Store(id, name, row)))
  {
    var s' := Next(s, Store(id, name, row));
    forall n | n in s'.store ensures Right(s', n, Shown(s', n)) {
      if n == name {
        assert s'.tickets[id] == Ticket(n, s'.store[n].time);
      } else {
        assert Right(s, n, Shown(s, n));
        if i :| i in s.tickets && s.tickets[i] == Ticket(n, s.store[n].time) {
          assert s'.tickets[i] == s.tickets[i];
        }
      }
    }
  }

  lemma QueueSafeIff(s: State, id: nat, at: int)
    requires Safe(s) && Enabled(s, Queue(id, at))
    ensures Safe(Next(s, Queue(id, at))) <==> Timely(s, Queue(id, at))
  {
    var s', t := Next(s, Queue(id, at)), s.tickets[id];
    forall n | n in s.store && n != t.name ensures Right(s', n, Shown(s', n)) {
      assert Right(s, n, Shown(s, n));
      if i :| i in s.tickets && s.tickets[i] == Ticket(n, s.store[n].time) {
        assert i != id && s'.tickets[i] == s.tickets[i];
      }
    }
    if t.name in s.store {
      assert Shown(s', t.name) == Some(t.time);
      if i :| i in s.tickets && i != id && s.tickets[i] == Ticket(t.name, s.store[t.name].time) {
        assert s'.tickets[i] == s.tickets[i];
      } else {
        assert !OnTheWay(s', t.name);
      }
      assert Right(s', t.name, Shown(s', t.name)) <==> Timely(s, Queue(id, at));
    }
  }

  lemma CommitRowSafeIff(s: State, name: string)
    requires Safe(s) && Enabled(s, CommitRow(name))
    ensures Safe(Next(s, CommitRow(name))) <==> Timely(s, CommitRow(name))
  {
    var s' := Next(s, CommitRow(name));
    forall n | n in s.store ensures Right(s', n, Shown(s', n)) {
      assert Right(s, n, Shown(s, n));
      NothingNewShown(s, s', n);
    }
    assert Shown(s', name) == Shown(s, name);
    assert Right(s', name, Shown(s', name)) <==> Timely(s, CommitRow(name));
  }

  /** A time queued for a row that is not there yet is shown for nobody. */
  lemma CreateSafe(s: State, name: string, row: Row, at: int)
    requires Safe(s) && Enabled(s, Create(name, row, at))
    ensures Safe(Next(s, Create(name, row, at)))
  {
    var s' := Next(s, Create(name, row, at));
    forall n | n in s'.store ensures Right(s', n, Shown(s', n)) {
      assert Right(s, n, Shown(s, n));
      NothingNewShown(s, s', n);
    }
  }

  lemma WriteSafeIff(s: State, id: nat)
    requires Safe(s) && Enabled(s, Write(id))
    ensures Safe(Next(s, Write(id))) <==> Timely(s, Write(id))
  {
    var s' := Next(s, Write(id));
    forall n | n in s.store
      ensures Right(s', n, Shown(s', n)) <==>
              (n in s.copies[id] && Quiet(s, n) ==> s.copies[id][n] == s.store[n].time)
    {
      assert Right(s, n, Shown(s, n));
      assert OnTheWay(s', n) <==> OnTheWay(s, n);
    }
  }

  /** An entry leaves the queue. */
  lemma RemovalSafeIff(s: State, e: Event)
    requires Safe(s) && Enabled(s, e) && (e.Unqueue? || e.Remove? || e.Steal?)
    ensures Safe(Next(s, e)) <==> Timely(s, e)
  {
    var s' := Next(s, e);
    forall n | n in s.store ensures OnTheWay(s', n) <==> OnTheWay(s, n) {}
    forall n | n in s.store && n != e.name ensures Right(s', n, Shown(s', n)) {
      assert Right(s, n, Shown(s, n));
      NothingNewShown(s, s', n);
    }
    if e.name in s.store {
      assert Shown(s', e.name) == Beneath(s, e.name);
    }
  }

  /** Other flush steps, evictions, deletions of rows and reads show nothing new. */
  lemma OtherSafe(s: State, e: Event)
    requires Safe(s) && Enabled(s, e)
    requires !e.Store? && !e.Queue? && !e.Create? && !e.CommitRow? && !e.Write?
    requires !e.Unqueue? && !e.Remove? && !e.Steal?
    ensures Safe(Next(s, e))
  {
    var s' := Next(s, e);
    forall n | n in s'.store ensures Right(s', n, Shown(s', n)) {
      assert Right(s, n, Shown(s, n));
      NothingNewShown(s, s', n);
    }
  }

  /** Step by step, the cache stays safe exactly when the step is timely. */
  lemma NextSafeIff(s: State, e: Event)
    requires Safe(s) && Enabled(s, e)
    ensures Safe(Next(s, e)) <==> Timely(s, e)
  {
    match e
    case Store(id, name, row) => StoreSafe(s, id, name, row);
    case Queue(id, at) => QueueSafeIff(s, id, at);
    case Create(name, row, at) => CreateSafe(s, name, row, at);
    case CommitRow(name) => CommitRowSafeIff(s, name);
    case Write(id) => WriteSafeIff(s, id);
    case Unqueue(_) => RemovalSafeIff(s, e);
    case Remove(_) => RemovalSafeIff(s, e);
    case Steal(_) => RemovalSafeIff(s, e);
    case _ => OtherSafe(s, e);
  }

  // ----- whole runs -----

  ghost predicate Trace(states: seq<State>, events: seq<Event>) {
    && |states| == |events| + 1 && states[0] == START
    && forall k | 0 <= k < |events| :: Enabled(states[k], events[k]) && states[k + 1] == Next(states[k], events[k])
  }

  ghost predicate AlwaysSafe(states: seq<State>) {
    forall k | 0 <= k < |states| :: Safe(states[k])
  }

  ghost predicate AlwaysTimely(states: seq<State>, events: seq<Event>)
    requires Trace(states, events)
  {
    forall k | 0 <= k < |events| :: Timely(states[k], events[k])
  }

  lemma {:induction false} TimelySafe(states: seq<State>, events: seq<Event>, k: nat)
    requires Trace(states, events) && AlwaysTimely(states, events) && k < |states|
    ensures Safe(states[k])
  {
    if k > 0 {
      TimelySafe(states, events, k - 1);
      NextSafeIff(states[k - 1], events[k - 1]);
    }
  }

  /** An interleaving is safe throughout exactly when every step of it is timely. */
  lemma TraceSafeIff(states: seq<State>, events: seq<Event>)
    requires Trace(states, events)
    ensures AlwaysSafe(states) <==> AlwaysTimely(states, events)
  {
    if AlwaysTimely(states, events) {
      forall k | 0 <= k < |states| ensures Safe(states[k]) {
        TimelySafe(states, events, k);
      }
    }
    if AlwaysSafe(states) {
      forall k | 0 <= k < |events| ensures Timely(states[k], events[k]) {
        assert Safe(states[k]) && Safe(states[k + 1]);
        NextSafeIff(states[k], events[k]);
      }
    }
  }

  /** The cached time is not the stored one although nothing will correct it. */
  ghost predicate Stale(s: State, n: string) {
    && n in s.store && s.times.Some? && n in s.times.value && s.times.value[n] != s.store[n].time
    && Quiet(s, n)
  }

  lemma StaleUnsafe(s: State, n: string)
    requires Stale(s, n)
    ensures !Safe(s)
  {
    assert !Right(s, n, Shown(s, n));
  }

  /** Once the map has been evicted only what is queued or held is shown, until a rebuild or a flush. */
  lemma EvictedShowsNothing(s: State, n: string)
    requires n !in s.pending && !Held(s, n)
    ensures Shown(Next(s, Evict), n) == None
  {
  }

  /** A row that was rolled back is not committed, but may be created again. */
  lemma RolledBackIsFree(s: State, name: string, row: Row, at: int)
    requires Enabled(s, RollbackRow(name)) && name !in s.store
    ensures !Enabled(Next(s, RollbackRow(name)), CommitRow(name))
    ensures Enabled(Next(s, RollbackRow(name)), Create(name, row, at))
  {
  }

  /** The running flush, begun before step k, loaded the entry at step j, and it was due. */
  ghost predicate LoadedAt(states: seq<State>, events: seq<Event>, j: nat, k: nat, n: string)
    requires Trace(states, events) && k < |states|
  {
    && j < k && events[j] == Load(n)
    && n in states[j].pending && states[j].running.Some? && states[j].pending[n].at < states[j].running.value.cutoff
    && (forall i | j < i < k :: !events[i].Begin?)
  }

  lemma LoadedStep(states: seq<State>, events: seq<Event>, k: nat, n: string)
    requires Trace(states, events) && k < |events|
    requires states[k + 1].running.Some? && n in states[k + 1].running.value.loaded
    ensures || events[k] == Load(n)
            || (!events[k].Begin? && states[k].running.Some? && n in states[k].running.value.loaded)
    ensures events[k] == Load(n) ==> LoadedAt(states, events, k, k + 1, n)
  {
    assert Enabled(states[k], events[k]) && states[k + 1] == Next(states[k], events[k]);
  }

  lemma {:induction false} LoadedBefore(states: seq<State>, events: seq<Event>, k: nat, n: string) returns (j: nat)
    requires Trace(states, events) && k < |states|
    requires states[k].running.Some? && n in states[k].running.value.loaded
    ensures LoadedAt(states, events, j, k, n)
  {
    assert states[0].running.None?;
    LoadedStep(states, events, k - 1, n);
    if events[k - 1] == Load(n) {
      j := k - 1;
    } else {
      j := LoadedBefore(states, events, k - 1, n);
    }
  }

  /** In every interleaving an entry that a flush removes was loaded by it before, and was then due. */
  lemma RemovedWasLoaded(states: seq<State>, events: seq<Event>, k: nat, n: string) returns (j: nat)
    requires Trace(states, events) && k < |events| && events[k] == Remove(n)
    ensures LoadedAt(states, events, j, k, n)
  {
    assert Enabled(states[k], events[k]);
    j := LoadedBefore(states, events, k, n);
  }

  // ----- what a copied map may have missed -----

  /** The last time stored for a node in a stretch of a run, by a report or by the commit of its row. */
  ghost function LastStored(states: seq<State>, events: seq<Event>, r: nat, w: nat, n: string): Option<string>
    requires Trace(states, events) && r <= w <= |events|
  {
    if r == w then None
    else if events[w - 1].Store? && events[w - 1].name == n then Some(events[w - 1].row.time)
    else if events[w - 1].CommitRow? && events[w - 1].name == n then
      assert Enabled(states[w - 1], events[w - 1]);
      Some(states[w - 1].creating[n].time)
    else LastStored(states, events, r, w - 1, n)
  }

  lemma {:induction false} StoredSince(states: seq<State>, events: seq<Event>, r: nat, w: nat, n: string)
    requires Trace(states, events) && r <= w < |states| && n in states[w].store
    ensures var last := LastStored(states, events, r, w, n);
            && (last.Some? ==> states[w].store[n].time == last.value)
            && (last.None? ==> n in states[r].store && states[w].store[n] == states[r].store[n])
  {
    if r < w {
      TraceStep(states, events, w - 1);
      StoreStep(states[w - 1], events[w - 1], n);
      if !Stores(events[w - 1], n) {
        StoredSince(states, events, r, w - 1, n);
      }
    }
  }

  predicate Stores(e: Event, n: string) {
    (e.Store? || e.CommitRow?) && e.name == n
  }

  lemma StoreStep(s: State, e: Event, n: string)
    requires Enabled(s, e) && n in Next(s, e).store
    ensures if Stores(e, n)
            then Next(s, e).store[n] == if e.Store? then e.row else s.creating[n]
            else n in s.store && Next(s, e).store[n] == s.store[n]
  {
  }

  ghost predicate NoneStored(events: seq<Event>, from: nat, to: nat, n: string)
    requires to <= |events|
  {
    forall k | from <= k < to :: !Stores(events[k], n)
  }

  lemma GoneStep(states: seq<State>, events: seq<Event>, k: nat, n: string)
    requires Trace(states, events) && k < |events| && n !in states[k].store && !Stores(events[k], n)
    ensures n !in states[k + 1].store
  {
    TraceStep(states, events, k);
    if n in states[k + 1].store { StoreStep(states[k], events[k], n); }
  }

  /** A row that is gone stays away until it is stored or created again. */
  lemma {:induction false} GoneStaysAway(states: seq<State>, events: seq<Event>, from: nat, to: nat, n: string)
    requires Trace(states, events) && from <= to < |states| && n !in states[from].store
    requires NoneStored(events, from, to, n)
    ensures n !in states[to].store
  {
    if from < to {
      GoneStaysAway(states, events, from, to - 1, n);
      assert !Stores(events[to - 1], n);
      GoneStep(states, events, to - 1, n);
    }
  }

  /** In particular after its deletion. */
  lemma DeletedStaysAway(states: seq<State>, events: seq<Event>, r: nat, w: nat, n: string)
    requires Trace(states, events) && r < w < |states| && events[r] == DeleteRow(n)
    requires NoneStored(events, r + 1, w, n)
    ensures n !in states[w].store
  {
    TraceStep(states, events, r);
    GoneStaysAway(states, events, r + 1, w, n);
  }

  /** Reads and writes copy `id`. */
  predicate Touches(e: Event, id: nat) {
    (e.List? || e.ReadForDelete? || e.Write?) && e.id == id
  }

  lemma TraceStep(states: seq<State>, events: seq<Event>, k: nat)
    requires Trace(states, events) && k < |events|
    ensures Enabled(states[k], events[k]) && states[k + 1] == Next(states[k], events[k])
  {
  }

  ghost predicate Untouched(events: seq<Event>, from: nat, to: nat, id: nat)
    requires to <= |events|
  {
    forall k | from <= k < to :: !Touches(events[k], id)
  }

  ghost predicate Carries(s: State, id: nat, copy: Times) {
    id in s.copies && s.copies[id] == copy
  }

  lemma {:induction false} CopyKept(states: seq<State>, events: seq<Event>, from: nat, to: nat, id: nat, copy: Times)
    requires Trace(states, events) && from <= to < |states|
    requires Carries(states[from], id, copy) && Untouched(events, from, to, id)
    ensures Carries(states[to], id, copy)
  {
    if from < to {
      CopyKept(states, events, from, to - 1, id, copy);
      assert !Touches(events[to - 1], id);
      CopyStep(states, events, to - 1, id, copy);
    }
  }

  lemma CopyStep(states: seq<State>, events: seq<Event>, k: nat, id: nat, copy: Times)
    requires Trace(states, events) && k < |events| && Carries(states[k], id, copy) && !Touches(events[k], id)
    ensures Carries(states[k + 1], id, copy)
  {
    TraceStep(states, events, k);
  }

  /** A map listed at r and written at w is right about a node exactly when the last time stored for it in
      between, if any, is the one listed. */
  lemma ListedRightIff(states: seq<State>, events: seq<Event>, r: nat, w: nat, id: nat, n: string)
    requires Trace(states, events) && r < w < |events| && events[r].List? && events[r].id == id
    requires events[w] == Write(id) && Untouched(events, r + 1, w, id)
    requires n in states[w].store && n in Rebuilt(states[r].store, events[r].nodes)
    ensures states[w + 1].times.Some? && n in states[w + 1].times.value && n in states[w + 1].store
    ensures states[w + 1].times.value[n] == states[w + 1].store[n].time <==>
            var last := LastStored(states, events, r + 1, w, n);
            last.None? || last.value == Rebuilt(states[r].store, events[r].nodes)[n]
  {
    TraceStep(states, events, r);
    TraceStep(states, events, w);
    CopyKept(states, events, r + 1, w, id, states[r + 1].copies[id]);
    StoredSince(states, events, r + 1, w, n);
  }

  /** A map read for a deletion at r and written at w is right about another node exactly when the last time
      stored for it in between, or else the one in the table at r, is the one cached at r. */
  lemma DeletionRightIff(states: seq<State>, events: seq<Event>, r: nat, w: nat, id: nat, n: string)
    requires Trace(states, events) && r < w < |events| && events[r].ReadForDelete? && events[r].id == id
    requires events[w] == Write(id) && Untouched(events, r + 1, w, id)
    requires n in states[w].store && n != events[r].name && states[r].times.Some? && n in states[r].times.value
    ensures states[w + 1].times.Some? && n in states[w + 1].times.value && n in states[w + 1].store
    ensures states[w + 1].times.value[n] == states[w + 1].store[n].time <==>
            var last := LastStored(states, events, r + 1, w, n);
            if last.Some? then last.value == states[r].times.value[n]
            else n in states[r].store && states[r].store[n].time == states[r].times.value[n]
  {
    TraceStep(states, events, r);
    TraceStep(states, events, w);
    CopyKept(states, events, r + 1, w, id, states[r + 1].copies[id]);
    StoredSince(states, events, r + 1, w, n);
  }

  // ----- a discipline that suffices -----

  /** No flush commits while a copy is open, the reports of a node are queued in the order in which they
      were stored, a created node's time is still queued when its row is committed, a flush removes what it
      loaded, a name is unqueued otherwise only while its row is gone and not being created, and no other
      namespace interferes. */
  ghost predicate Undisturbed(s: State, e: Event)
    requires Enabled(s, e)
  {
    match e
    case Queue(id, _) => forall i | i in s.tickets && s.tickets[i].name == s.tickets[id].name :: id <= i
    case CommitRow(name) =>
      && name in s.pending && s.pending[name].value == s.creating[name].time
      && forall i | i in s.tickets :: s.tickets[i].name != name
    case Unqueue(name) => name !in s.store && name !in s.creating
    case Remove(name) => name in s.pending ==> s.pending[name].value == s.running.value.local[name]
    case Commit => s.copies == map[]
    case Steal(_) => false
    case _ => true
  }

  ghost predicate Newest(s: State, i: nat)
    requires i in s.tickets
  {
    forall j | j in s.tickets && s.tickets[j].name == s.tickets[i].name :: j <= i
  }

  /** The newest open ticket of a node carries the stored time. */
  ghost predicate Ordered(s: State) {
    forall i | i in s.tickets && s.tickets[i].name in s.store && Newest(s, i) ::
      s.tickets[i].time == s.store[s.tickets[i].name].time
  }

  /** An open copy is right about every node about which nothing is under way. */
  ghost predicate CopiesRight(s: State) {
    forall id, n | id in s.copies && n in s.copies[id] && n in s.store && Quiet(s, n) ::
      s.copies[id][n] == s.store[n].time
  }

  lemma {:induction false} NewestOf(s: State, i: nat, ids: set<nat>) returns (j: nat)
    requires i in s.tickets && ids == set k | k in s.tickets && s.tickets[k].name == s.tickets[i].name && k >= i
    ensures j in s.tickets && s.tickets[j].name == s.tickets[i].name && j >= i && Newest(s, j)
    decreases |ids|
  {
    if Newest(s, i) {
      j := i;
    } else {
      var k :| k in s.tickets && s.tickets[k].name == s.tickets[i].name && k > i;
      var ids' := set l | l in s.tickets && s.tickets[l].name == s.tickets[k].name && l >= k;
      assert ids' <= ids - {i} && i in ids;
      SubsetCount(ids', ids - {i});
      j := NewestOf(s, k, ids');
    }
  }

  /** With an open ticket the stored time is on its way. */
  lemma TicketOnTheWay(s: State, i: nat)
    requires Ordered(s) && i in s.tickets && s.tickets[i].name in s.store
    ensures OnTheWay(s, s.tickets[i].name)
  {
    var j := NewestOf(s, i, set k | k in s.tickets && s.tickets[k].name == s.tickets[i].name && k >= i);
    assert s.tickets[j] == Ticket(s.tickets[i].name, s.store[s.tickets[i].name].time);
  }

  lemma OrderedStep(s: State, e: Event)
    requires Ordered(s) && Enabled(s, e) && Undisturbed(s, e)
    ensures Ordered(Next(s, e))
  {
    var s' := Next(s, e);
    forall i | i in s'.tickets && s'.tickets[i].name in s'.store && Newest(s', i)
      ensures s'.tickets[i].time == s'.store[s'.tickets[i].name].time
    {
      if e.Store? {
        if s'.tickets[i].name == e.name {
          assert s'.tickets[e.id].name == e.name && e.id <= i;
        } else {
          assert Newest(s, i) by {
            forall j | j in s.tickets && s.tickets[j].name == s.tickets[i].name ensures j <= i {
              assert s'.tickets[j] == s.tickets[j];
            }
          }
        }
      } else if e.Queue? {
        assert Newest(s, i) by {
          forall j | j in s.tickets && s.tickets[j].name == s.tickets[i].name ensures j <= i {
            if j != e.id { assert s'.tickets[j] == s.tickets[j]; }
          }
        }
      } else {
        assert s'.tickets == s.tickets && Newest(s, i);
      }
    }
  }

  lemma StillOnTheWay(s: State, s': State, n: string, i: nat)
    requires n in s.store && n in s'.store && s'.store[n] == s.store[n]
    requires i in s.tickets && s.tickets[i] == Ticket(n, s.store[n].time)
    requires i in s'.tickets && s'.tickets[i] == s.tickets[i]
    ensures OnTheWay(s', n)
  {
  }

  /** Only a commit makes a node quiet again. */
  lemma QuietBefore(s: State, e: Event, n: string)
    requires Enabled(s, e) && Undisturbed(s, e) && !e.Commit? && n in Next(s, e).store
    ensures Quiet(Next(s, e), n) ==> n in s.store && Next(s, e).store[n] == s.store[n] && Quiet(s, n)
  {
    var s' := Next(s, e);
    if e.Store? && n == e.name {
      assert s'.tickets[e.id] == Ticket(n, s'.store[n].time);
    } else if n in s.store && OnTheWay(s, n) {
      var i :| i in s.tickets && s.tickets[i] == Ticket(n, s.store[n].time);
      if !(e.Queue? && e.id == i) { StillOnTheWay(s, s', n, i); }
    }
  }

  lemma CopiesStep(s: State, e: Event)
    requires Safe(s) && Ordered(s) && CopiesRight(s) && Enabled(s, e) && Undisturbed(s, e)
    ensures CopiesRight(Next(s, e))
  {
    var s' := Next(s, e);
    forall id, n | id in s'.copies && n in s'.copies[id] && n in s'.store && Quiet(s', n)
      ensures s'.copies[id][n] == s'.store[n].time
    {
      if !e.Commit? {
        QuietBefore(s, e, n);
        if e.ReadForDelete? && id == e.id && id !in s.copies {
          assert Right(s, n, Shown(s, n));
        }
      }
    }
  }

  lemma UndisturbedTimely(s: State, e: Event)
    requires Safe(s) && Ordered(s) && CopiesRight(s) && Enabled(s, e) && Undisturbed(s, e)
    ensures Timely(s, e)
  {
    if e.Queue? {
      var t := s.tickets[e.id];
      if t.name in s.store && s.store[t.name].time != t.time {
        TicketOnTheWay(s, e.id);
        var i :| i in s.tickets && s.tickets[i] == Ticket(t.name, s.store[t.name].time);
        assert i != e.id;
      }
    } else if e.Remove? && e.name in s.store {
      assert Right(s, e.name, Shown(s, e.name));
    }
  }

  lemma {:induction false} UndisturbedTrace(states: seq<State>, events: seq<Event>, k: nat)
    requires Trace(states, events) && k < |states|
    requires forall j | 0 <= j < |events| :: Undisturbed(states[j], events[j])
    ensures Safe(states[k]) && Ordered(states[k]) && CopiesRight(states[k])
  {
    if k > 0 {
      UndisturbedTrace(states, events, k - 1);
      UndisturbedTimely(states[k - 1], events[k - 1]);
      NextSafeIff(states[k - 1], events[k - 1]);
      OrderedStep(states[k - 1], events[k - 1]);
      CopiesStep(states[k - 1], events[k - 1]);
    }
  }

  /** In every undisturbed interleaving the cached time of an existing node differs from the stored one
      only while the stored one is on its way to the queue, queued, or held by the running flush. */
  lemma StaleOnlyWhilePending(states: seq<State>, events: seq<Event>, k: nat, n: string)
    requires Trace(states, events) && k < |states|
    requires forall j | 0 <= j < |events| :: Undisturbed(states[j], events[j])
    requires n in states[k].store && states[k].times.Some? && n in states[k].times.value
    ensures var s := states[k];
            s.times.value[n] != s.store[n].time ==>
              || OnTheWay(s, n)
              || (n in s.pending && s.pending[n].value == s.store[n].time)
              || (Held(s, n) && s.running.value.local[n] == s.store[n].time)
  {
    UndisturbedTrace(states, events, k);
    assert Right(states[k], n, Shown(states[k], n));
  }

  // ----- runs that leave a wrong time for good -----

  ghost function Reach(s: State, events: seq<Event>): Option<State> {
    if events == [] then Some(s)
    else
      var before, e := Reach(s, events[..|events| - 1]), events[|events| - 1];
      if before.Some? && Enabled(before.value, e) then Some(Next(before.value, e)) else None
  }

  lemma ReachNext(s: State, events: seq<Event>, e: Event)
    requires Reach(s, events).Some? && Enabled(Reach(s, events).value, e)
    ensures Reach(s, events + [e]) == Some(Next(Reach(s, events).value, e))
  {
    assert (events + [e])[..|events + [e]| - 1] == events;
  }

  /** A node has reported `time` and the report has been queued. */
  lemma Reported(s: State, events: seq<Event>, id: nat, n: string, time: string) returns (events': seq<Event>)
    requires Reach(START, events) == Some(s) && s.tickets == map[]
    ensures Reach(START, events') ==
      Some(s.(store := s.store[n := Row("", time)], pending := s.pending[n := Pending(time, 0)]))
  {
    var stored := Store(id, n, Row("", time));
    StoredAndQueued(s, id, n, time);
    ReachNext(START, events, stored);
    ReachNext(START, events + [stored], Queue(id, 0));
    events' := events + [stored] + [Queue(id, 0)];
  }

  lemma StoredAndQueued(s: State, id: nat, n: string, time: string)
    requires s.tickets == map[]
    ensures Enabled(s, Store(id, n, Row("", time))) && Enabled(Next(s, Store(id, n, Row("", time))), Queue(id, 0))
    ensures Next(Next(s, Store(id, n, Row("", time))), Queue(id, 0))
         == s.(store := s.store[n := Row("", time)], pending := s.pending[n := Pending(time, 0)])
  {
    assert s.tickets[id := Ticket(n, time)] - {id} == map[];
  }

  /** And a flush has saved it. */
  lemma Saved(s: State, events: seq<Event>, n: string) returns (events': seq<Event>)
    requires Reach(START, events) == Some(s) && s.running.None? && s.pending.Keys == {n} && s.pending[n].at == 0
    ensures Reach(START, events') ==
      Some(s.(times := Some(Base(s.times)[n := s.pending[n].value]), pending := map[]))
  {
    events' := Loaded(s, events, n);
    var s1 := s.(running := Some(Flush(Base(s.times)[n := s.pending[n].value], {n}, 1)));
    events' := RemovedAndCommitted(s1, events', n);
  }

  lemma Loaded(s: State, events: seq<Event>, n: string) returns (events': seq<Event>)
    requires Reach(START, events) == Some(s) && s.running.None? && n in s.pending && s.pending[n].at == 0
    ensures Reach(START, events') == Some(s.(running := Some(Flush(Base(s.times)[n := s.pending[n].value], {n}, 1))))
  {
    ReachNext(START, events, Begin(1));
    ReachNext(START, events + [Begin(1)], Load(n));
    assert {} + {n} == {n};
    events' := events + [Begin(1)] + [Load(n)];
  }

  lemma RemovedAndCommitted(s: State, events: seq<Event>, n: string) returns (events': seq<Event>)
    requires Reach(START, events) == Some(s) && Held(s, n) && n in s.running.value.loaded && s.pending.Keys == {n}
    ensures Reach(START, events') == Some(s.(times := Some(s.running.value.local), pending := map[], running := None))
  {
    ReachNext(START, events, Remove(n));
    assert s.pending - {n} == map[];
    ReachNext(START, events + [Remove(n)], Commit);
    events' := events + [Remove(n)] + [Commit];
  }

  lemma OneNode(n: string, time: string) returns (events: seq<Event>)
    ensures Reach(START, events) ==
      Some(START.(store := map[n := Row("", time)], times := Some(map[n := time])))
  {
    events := Reported(START, [], 0, n, time);
    var s := START.(store := map[n := Row("", time)], pending := map[n := Pending(time, 0)]);
    assert START.store[n := Row("", time)] == s.store && START.pending[n := Pending(time, 0)] == s.pending;
    events := Saved(s, events, n);
    assert Base(START.times)[n := time] == map[n := time];
  }

  /** A copy is read, the node reports and a flush saves the report; then the copy is written. */
  lemma CopyOverwrites(s: State, events: seq<Event>, id: nat, n: string, t0: string, t1: string)
    returns (events': seq<Event>, s': State)
    requires Reach(START, events) == Some(s) && t0 != t1
    requires s.tickets == map[] && s.pending == map[] && s.running.None?
    requires id in s.copies && n in s.copies[id] && s.copies[id][n] == t0
    ensures Reach(START, events') == Some(s') && Stale(s', n)
  {
    events' := Reported(s, events, 0, n, t1);
    var s1 := s.(store := s.store[n := Row("", t1)], pending := s.pending[n := Pending(t1, 0)]);
    events' := Saved(s1, events', n);
    var s2 := s1.(times := Some(Base(s1.times)[n := t1]), pending := map[]);
    ReachNext(START, events', Write(id));
    s' := Next(s2, Write(id));
    events' := events' + [Write(id)];
  }

  /** A rebuild that lists the table before, and writes its map after, a report has been stored and flushed. */
  lemma RebuildLosesReport(n: string, t0: string, t1: string) returns (events: seq<Event>, s: State)
    requires t0 != t1
    ensures Reach(START, events) == Some(s) && Stale(s, n) && !Safe(s)
  {
    events := OneNode(n, t0);
    var s0 := START.(store := map[n := Row("", t0)], times := Some(map[n := t0]));
    ReachNext(START, events, List(0, [n]));
    events, s := CopyOverwrites(Next(s0, List(0, [n])), events + [List(0, [n])], 0, n, t0, t1);
    StaleUnsafe(s, n);
  }

  /** A deletion of another node that reads the map before, and writes it after, a flush. */
  lemma DeletionLosesReport(n: string, other: string, t0: string, t1: string) returns (events: seq<Event>, s: State)
    requires t0 != t1 && other != n
    ensures Reach(START, events) == Some(s) && Stale(s, n) && !Safe(s)
  {
    events := OneNode(n, t0);
    var s0 := START.(store := map[n := Row("", t0)], times := Some(map[n := t0]));
    ReachNext(START, events, ReadForDelete(0, other));
    events, s := CopyOverwrites(Next(s0, ReadForDelete(0, other)), events + [ReadForDelete(0, other)], 0, n, t0, t1);
    StaleUnsafe(s, n);
  }

  /** Two reports of a node are stored in one order and queued in the other. */
  lemma OvertakenReportLost(n: string, t0: string, t1: string) returns (events: seq<Event>, s: State)
    requires t0 != t1
    ensures Reach(START, events) == Some(s) && Stale(s, n) && !Safe(s)
  {
    var first, second := Store(0, n, Row("", t0)), Store(1, n, Row("", t1));
    ReachNext(START, [], first);
    var s1 := Next(START, first);
    ReachNext(START, [] + [first], second);
    var s2 := Next(s1, second);
    ReachNext(START, [] + [first] + [second], Queue(1, 0));
    var s3 := Next(s2, Queue(1, 0));
    ReachNext(START, [] + [first] + [second] + [Queue(1, 0)], Queue(0, 0));
    var s4 := Next(s3, Queue(0, 0));
    assert s4.pending == map[n := Pending(t0, 0)] && s4.tickets == map[];
    events := Saved(s4, [] + [first] + [second] + [Queue(1, 0)] + [Queue(0, 0)], n);
    s := s4.(times := Some(Base(s4.times)[n := t0]), pending := map[]);
    StaleUnsafe(s, n);
  }

  /** A report queued after a flush has loaded the node's entry, and before it removes it, goes with it. */
  lemma LateReportLost(n: string, t0: string, t1: string) returns (events: seq<Event>, s: State)
    requires t0 != t1
    ensures Reach(START, events) == Some(s) && Stale(s, n) && !Safe(s)
  {
    events := Reported(START, [], 0, n, t0);
    var s0 := START.(store := map[n := Row("", t0)], pending := map[n := Pending(t0, 0)]);
    assert START.store[n := Row("", t0)] == s0.store && START.pending[n := Pending(t0, 0)] == s0.pending;
    events := Loaded(s0, events, n);
    var s1 := s0.(running := Some(Flush(Base(s0.times)[n := t0], {n}, 1)));
    events := Reported(s1, events, 0, n, t1);
    var s2 := s1.(store := s1.store[n := Row("", t1)], pending := s1.pending[n := Pending(t1, 0)]);
    events := RemovedAndCommitted(s2, events, n);
    s := s2.(times := Some(s2.running.value.local), pending := map[], running := None);
    StaleUnsafe(s, n);
  }

  /** A node's first time is queued and flushed while a rebuild that has not seen its row fills in the zero
      time; when the row is committed the zero time stays. */
  lemma EarlyTimeLost(n: string, time: string) returns (events: seq<Event>, s: State)
    requires time != ZERO_TIME
    ensures Reach(START, events) == Some(s) && Stale(s, n) && !Safe(s)
  {
    var before, s0 := CreatedAndListed(n, time);
    before := Saved(s0, before, n);
    events, s := ZeroCommitted(s0.(times := Some(Base(s0.times)[n := time]), pending := map[]), before, n, time);
    StaleUnsafe(s, n);
  }

  lemma CreatedAndListed(n: string, time: string) returns (events: seq<Event>, s: State)
    ensures Reach(START, events) == Some(s)
    ensures s.creating == map[n := Row("", time)] && s.pending == map[n := Pending(time, 0)]
    ensures s.copies == map[0 := map[n := ZERO_TIME]]
    ensures s.store == map[] && s.tickets == map[] && s.times.None? && s.running.None?
  {
    var created := Create(n, Row("", time), 0);
    ReachNext(START, [], created);
    var s1 := Next(START, created);
    ReachNext(START, [] + [created], List(0, [n]));
    s := Next(s1, List(0, [n]));
    UnseenIsZero(n);
    events := [] + [created] + [List(0, [n])];
  }

  lemma UnseenIsZero(n: string)
    ensures Rebuilt(map[], [n]) == map[n := ZERO_TIME]
  {
  }

  lemma ZeroCommitted(s0: State, before: seq<Event>, n: string, time: string) returns (events: seq<Event>, s: State)
    requires Reach(START, before) == Some(s0) && time != ZERO_TIME
    requires s0.tickets == map[] && s0.pending == map[] && s0.running.None? && n !in s0.store
    requires n in s0.creating && s0.creating[n].time == time
    requires 0 in s0.copies && n in s0.copies[0] && s0.copies[0][n] == ZERO_TIME
    ensures Reach(START, events) == Some(s) && Stale(s, n)
  {
    ReachNext(START, before, Write(0));
    var s1 := Next(s0, Write(0));
    ReachNext(START, before + [Write(0)], CommitRow(n));
    s := Next(s1, CommitRow(n));
    events := before + [Write(0)] + [CommitRow(n)];
  }

  /** A flush triggered in another namespace takes the entry into its own map. */
  lemma StolenReportLost(n: string, t0: string, t1: string) returns (events: seq<Event>, s: State)
    requires t0 != t1
    ensures Reach(START, events) == Some(s) && Stale(s, n) && !Safe(s)
  {
    events := OneNode(n, t0);
    var s0 := START.(store := map[n := Row("", t0)], times := Some(map[n := t0]));
    events := Reported(s0, events, 0, n, t1);
    var s1 := s0.(store := s0.store[n := Row("", t1)], pending := s0.pending[n := Pending(t1, 0)]);
    ReachNext(START, events, Steal(n));
    s := Next(s1, Steal(n));
    events := events + [Steal(n)];
    StaleUnsafe(s, n);
  }

  // ----- flushing -----

  ghost function Visible(s: State): Times {
    Overlay(if s.running.Some? then Some(s.running.value.local) else s.times, s.pending)
  }

  /** No step of a flush changes what is visible, whatever its cut-off, as long as the entry it removes
      is the one it loaded. */
  lemma FlushStepKeepsVisible(s: State, e: Event)
    requires Enabled(s, e) && (e.Begin? || e.Load? || e.Remove? || e.Commit?)
    requires e.Remove? && e.name in s.pending ==> s.pending[e.name].value == s.running.value.local[e.name]
    ensures Visible(Next(s, e)) == Visible(s)
  {
    if e.Load? {
      OverlayLoad(s.running.value.local, s.pending, e.name);
    } else if e.Remove? {
      OverlayRemove(s.running.value.local, s.pending, e.name);
    }
  }

  lemma OverlayLoad(local: Times, pending: map<string, Pending>, n: string)
    requires n in pending
    ensures Overlay(Some(local[n := pending[n].value]), pending) == Overlay(Some(local), pending)
  {
  }

  lemma OverlayRemove(local: Times, pending: map<string, Pending>, n: string)
    requires n in local && (n in pending ==> pending[n].value == local[n])
    ensures Overlay(Some(local), pending - {n}) == Overlay(Some(local), pending)
  {
  }

  ghost function Takes(names: seq<string>): seq<Event> {
    if names == [] then []
    else Takes(names[..|names| - 1]) + [Load(names[|names| - 1])] + [Remove(names[|names| - 1])]
  }

  ghost function Due(pending: map<string, Pending>, cutoff: int): set<string> {
    set n | n in pending && pending[n].at < cutoff
  }

  /** The state of a flush that has taken the named entries. */
  ghost function Taken(s: State, names: seq<string>): State
    requires s.running.Some?
  {
    var left, f := s.pending.Keys - Elements(names), s.running.value;
    var local := PartFlushed(f.local, s.pending, left, f.cutoff);
    s.(running := Some(f.(local := local, loaded := f.loaded + Elements(names))),
       pending := s.pending - Elements(names))
  }

  lemma {:induction false} TakesReach(s: State, names: seq<string>)
    requires s.running.Some? && NoDuplicates(names)
    requires forall n | n in names :: n in Due(s.pending, s.running.value.cutoff)
    ensures Reach(s, Takes(names)) == Some(Taken(s, names))
  {
    if names == [] {
      NoneTaken(s);
    } else {
      var init, last := names[..|names| - 1], names[|names| - 1];
      assert names == init + [last] && last !in init;
      TakesReach(s, init);
      TakeNext(s, init, last);
      ReachNext(s, Takes(init), Load(last));
      ReachNext(s, Takes(init) + [Load(last)], Remove(last));
    }
  }

  lemma NoneTaken(s: State)
    requires s.running.Some?
    ensures Taken(s, []) == s
  {
    assert Elements<string>([]) == {};
    var f := s.running.value;
    assert PartFlushed(f.local, s.pending, s.pending.Keys, f.cutoff) == f.local;
    assert s.pending - {} == s.pending && f.loaded + {} == f.loaded;
  }

  lemma TakeNext(s: State, init: seq<string>, last: string)
    requires s.running.Some? && last in Due(s.pending, s.running.value.cutoff) && last !in init
    ensures Enabled(Taken(s, init), Load(last)) && Enabled(Next(Taken(s, init), Load(last)), Remove(last))
    ensures Next(Next(Taken(s, init), Load(last)), Remove(last)) == Taken(s, init + [last])
  {
    var was := s.pending;
    var left := was.Keys - Elements(init);
    PartFlushedStep(s.running.value.local, was, left, last, s.running.value.cutoff);
    assert Elements(init + [last]) == Elements(init) + {last};
    var loaded := s.running.value.loaded;
    assert loaded + Elements(init) + {last} == loaded + Elements(init + [last]);
    assert left - {last} == was.Keys - Elements(init + [last]);
    assert was - Elements(init) - {last} == was - Elements(init + [last]);
  }

  lemma AllTaken(base: Times, pending: map<string, Pending>, cutoff: int)
    ensures PartFlushed(base, pending, pending.Keys - Due(pending, cutoff), cutoff)
         == base + map n | n in pending && pending[n].at < cutoff :: pending[n].value
    ensures pending - Due(pending, cutoff) == Remaining(pending, cutoff)
  {
  }

  lemma {:induction false} ReachConcat(s: State, a: seq<Event>, b: seq<Event>)
    requires Reach(s, a).Some?
    ensures Reach(s, a + b) == Reach(Reach(s, a).value, b)
  {
    if b == [] {
      assert a + b == a;
    } else {
      assert (a + b)[..|a + b| - 1] == a + b[..|b| - 1];
      ReachConcat(s, a, b[..|b| - 1]);
    }
  }

  ghost function FlushEvents(cutoff: int, names: seq<string>): seq<Event> {
    [Begin(cutoff)] + (Takes(names) + [Commit])
  }

  /** A flush that visits every due entry, one at a time and in any order, does what the flush
      taken as one step is specified to do. */
  lemma StepwiseFlushIsAtomic(s: State, cutoff: int, names: seq<string>)
    requires s.running.None? && Lists(names, Due(s.pending, cutoff))
    ensures Reach(s, FlushEvents(cutoff, names))
         == Some(s.(times := Some(Flushed(s.times, s.pending, cutoff)), pending := Remaining(s.pending, cutoff)))
  {
    var begun := Next(s, Begin(cutoff));
    assert [Begin(cutoff)][..0] == [];
    assert Reach(s, [Begin(cutoff)]) == Some(begun);
    assert forall n | n in names :: n in Elements(names);
    TakesReach(begun, names);
    ReachNext(begun, Takes(names), Commit);
    ReachConcat(s, [Begin(cutoff)], Takes(names) + [Commit]);
    AllTaken(Base(s.times), s.pending, cutoff);
  }

  // ----- the cache object performs these steps -----

  /** The cache holds what the machine's state says. */
  ghost predicate Mirrors(cache: Cache, s: State)
    reads cache
  {
    cache.times == s.times && cache.pending == s.pending
  }

  lemma {:induction false} Listed(names: set<string>) returns (order: seq<string>)
    ensures Lists(order, names)
    decreases names
  {
    if names == {} {
      order := [];
    } else {
      var n :| n in names;
      var rest := Listed(names - {n});
      assert n !in rest by { assert n !in Elements(rest); }
      order := rest + [n];
      assert Elements(order) == Elements(rest) + {n};
    }
  }

  lemma FlushedNext(s: State, events: seq<Event>, cutoff: int) returns (events': seq<Event>)
    requires Reach(s, events).Some? && Reach(s, events).value.running.None?
    ensures var q := Reach(s, events).value;
            Reach(s, events') ==
              Some(q.(times := Some(Flushed(q.times, q.pending, cutoff)), pending := Remaining(q.pending, cutoff)))
  {
    var queued := Reach(s, events).value;
    var names := Listed(Due(queued.pending, cutoff));
    StepwiseFlushIsAtomic(queued, cutoff, names);
    ReachConcat(s, events, FlushEvents(cutoff, names));
    events' := events + FlushEvents(cutoff, names);
  }

  /** A stored report is queued, and the queue is flushed when the timer has fired and no lock is held. */
  method QueueReport(cache: Cache, ghost s: State, ghost id: nat, name: string, row: Row, at: int, tick: bool, now: int)
    returns (ghost events: seq<Event>)
    requires Mirrors(cache, s) && s.running.None? && id in s.tickets && s.tickets[id] == Ticket(name, row.time)
    modifies cache
    ensures Reach(s, events).Some? && Mirrors(cache, Reach(s, events).value)
    ensures Reach(s, events).value.store == s.store && Reach(s, events).value.tickets == s.tickets - {id}
  {
    ReachNext(s, [], Queue(id, at));
    events := [] + [Queue(id, at)];
    if tick && cache.timeLock.None? {
      events := FlushedNext(s, events, now);
    }
    cache.ShadowCreateOrUpdateCacheSet(name, row, at, tick, now);
  }

  /** The same for the first time of a node whose row is not committed yet. */
  method QueueCreation(cache: Cache, ghost s: State, name: string, row: Row, at: int, tick: bool, now: int)
    returns (ghost events: seq<Event>)
    requires Mirrors(cache, s) && s.running.None? && Enabled(s, Create(name, row, at))
    modifies cache
    ensures Reach(s, events).Some? && Mirrors(cache, Reach(s, events).value)
    ensures Reach(s, events).value.store == s.store && Reach(s, events).value.creating == s.creating[name := row]
  {
    ReachNext(s, [], Create(name, row, at));
    events := [] + [Create(name, row, at)];
    if tick && cache.timeLock.None? {
      events := FlushedNext(s, events, now);
    }
    cache.ShadowCreateOrUpdateCacheSet(name, row, at, tick, now);
  }

  method DeleteReport(cache: Cache, ghost s: State, ghost id: nat, name: string) returns (ghost events: seq<Event>)
    requires Mirrors(cache, s) && id !in s.copies
    modifies cache
    ensures Reach(s, events).Some? && Mirrors(cache, Reach(s, events).value)
    ensures Reach(s, events).value == s.(times := cache.times, pending := cache.pending)
  {
    events := [];
    if cache.times.Some? {
      DeletionSteps(s, id, name);
      events := [] + [ReadForDelete(id, name)] + [Unqueue(name)] + [Write(id)];
    }
    cache.ShadowDeleteCache(name);
  }

  lemma DeletionSteps(s: State, id: nat, name: string)
    requires s.times.Some? && id !in s.copies
    ensures Reach(s, [] + [ReadForDelete(id, name)] + [Unqueue(name)] + [Write(id)])
         == Some(s.(times := Some(s.times.value - {name}), pending := s.pending - {name}))
  {
    ReachNext(s, [], ReadForDelete(id, name));
    ReachNext(s, [] + [ReadForDelete(id, name)], Unqueue(name));
    ReachNext(s, [] + [ReadForDelete(id, name)] + [Unqueue(name)], Write(id));
    assert s.copies[id := s.times.value - {name}] - {id} == s.copies;
  }

  method RebuildTimes(cache: Cache, ghost s: State, ghost id: nat, store: Store, nodes: seq<string>)
    returns (reportTimeMap: Times, ghost events: seq<Event>)
    requires Mirrors(cache, s) && id !in s.copies && store == s.store
    modifies cache
    ensures Reach(s, events).Some? && Mirrors(cache, Reach(s, events).value)
    ensures Reach(s, events).value == s.(times := Some(reportTimeMap))
  {
    ReachNext(s, [], List(id, nodes));
    ReachNext(s, [] + [List(id, nodes)], Write(id));
    assert s.copies[id := Rebuilt(s.store, nodes)] - {id} == s.copies;
    events := [] + [List(id, nodes)] + [Write(id)];
    reportTimeMap := cache.SetNodeShadowCache(store, nodes);
  }
}
