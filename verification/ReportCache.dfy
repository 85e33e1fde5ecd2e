/** triggerfunc/trigger.go and the report cache of service/node.go, in one namespace: report times
    are written behind through a pending map, report documents are read through. */
module ReportCache {
  import opened Collections
  import opened Model

  /** A shadow row: the report document and the time in it. */
  datatype Row = Row(report: string, time: string)
  type Store = map<string, Row>
  type Times = map<string, string>

  /** A report time waiting to be saved, and when it was put there. */
  datatype Pending = Pending(value: string, at: int)

  const ZERO_TIME := "0001-01-01T00:00:00Z"
  const EMPTY_REPORT := "{}"
  const TIME_LOCK_SECONDS := 120
  const REPORT_LOCK_SECONDS := 1800
  const MAX_MISSES := 10

  // ----- report times -----

  function Base(times: Option<Times>): Times {
    if times.Some? then times.value else map[]
  }

  ghost function Flushed(times: Option<Times>, pending: map<string, Pending>, cutoff: int): Times {
    Base(times) + map n | n in pending && pending[n].at < cutoff :: pending[n].value
  }

  ghost function Remaining(pending: map<string, Pending>, cutoff: int): map<string, Pending> {
    map n | n in pending && pending[n].at >= cutoff :: pending[n]
  }

  /** What a reader of the cache would see if everything pending had been saved. */
  ghost function Overlay(times: Option<Times>, pending: map<string, Pending>): Times {
    Base(times) + map n | n in pending :: pending[n].value
  }

  /** The flush part way through, with the keys in `left` still to be visited. */
  ghost function PartFlushed(base: Times, was: map<string, Pending>, left: set<string>, cutoff: int): Times {
    base + map n | n in was && n !in left && was[n].at < cutoff :: was[n].value
  }

  ghost function PartRemaining(was: map<string, Pending>, left: set<string>, cutoff: int): map<string, Pending> {
    map n | n in was && (n in left || was[n].at >= cutoff) :: was[n]
  }

  lemma PartFlushedStep(base: Times, was: map<string, Pending>, left: set<string>, key: string, cutoff: int)
    requires key in left && key in was
    ensures PartFlushed(base, was, left - {key}, cutoff)
         == if was[key].at < cutoff then PartFlushed(base, was, left, cutoff)[key := was[key].value]
            else PartFlushed(base, was, left, cutoff)
  {
  }

  lemma PartRemainingStep(was: map<string, Pending>, left: set<string>, key: string, cutoff: int)
    requires key in left && key in was
    ensures PartRemaining(was, left - {key}, cutoff)
         == if was[key].at < cutoff then PartRemaining(was, left, cutoff) - {key} else PartRemaining(was, left, cutoff)
  {
  }

  lemma FlushKeepsOverlay(times: Option<Times>, pending: map<string, Pending>, cutoff: int)
    ensures Overlay(Some(Flushed(times, pending, cutoff)), Remaining(pending, cutoff)) == Overlay(times, pending)
  {
    var due := map n | n in pending && pending[n].at < cutoff :: pending[n].value;
    var rest := map n | n in Remaining(pending, cutoff) :: Remaining(pending, cutoff)[n].value;
    assert (map n | n in pending :: pending[n].value) == due + rest;
    assert Base(times) + (due + rest) == (Base(times) + due) + rest;
  }

  /** Missing nodes are filled in only when there are fewer stored rows than listed nodes. */
  ghost function Rebuilt(store: Store, nodes: seq<string>): Times {
    if |store| < |nodes| then ZeroFilled(nodes, StoredTimes(store)) else StoredTimes(store)
  }

  function StoredTimes(store: Store): (r: Times)
    ensures r.Keys == store.Keys
  {
    map n | n in store :: store[n].time
  }

  ghost function ZeroFilled(nodes: seq<string>, times: Times): Times {
    (map n | n in nodes :: ZERO_TIME) + times
  }

  lemma ZeroFilledStep(nodes: seq<string>, node: string, times: Times)
    ensures var filled := ZeroFilled(nodes, times);
            ZeroFilled(nodes + [node], times) == if node in filled then filled else filled[node := ZERO_TIME]
  {
  }

  /** A rebuilt map has the stored time of every row, listed or not, and the zero time of every listed node
      without one if rows are fewer than nodes. */
  lemma RebuiltAt(store: Store, nodes: seq<string>, n: string)
    ensures n in Rebuilt(store, nodes) <==> n in store || (n in nodes && |store| < |nodes|)
    ensures n in Rebuilt(store, nodes) ==>
              Rebuilt(store, nodes)[n] == if n in store then store[n].time else ZERO_TIME
  {
  }

  /** Every listed node gets a time exactly when rows are fewer than nodes or every node has a row. */
  lemma RebuiltCoversIff(store: Store, nodes: seq<string>)
    ensures (forall n | n in nodes :: n in Rebuilt(store, nodes)) <==>
            |store| < |nodes| || Elements(nodes) <= store.Keys
  {
    if forall n | n in nodes :: n in Rebuilt(store, nodes) {
      if |store| >= |nodes| {
        forall n | n in Elements(nodes) ensures n in store { assert n in Rebuilt(store, nodes); }
      }
    }
  }

  /** When rows exist for listed nodes only, counting rows is enough to notice a missing one. */
  lemma {:induction false} RebuiltCovers(store: Store, nodes: seq<string>)
    requires NoDuplicates(nodes) && store.Keys <= Elements(nodes)
    ensures Rebuilt(store, nodes).Keys == Elements(nodes)
    ensures forall n | n in store :: Rebuilt(store, nodes)[n] == store[n].time
  {
    DistinctCount(nodes);
    SubsetCount(store.Keys, Elements(nodes));
    assert |store.Keys| == |store|;
    RebuiltCoversIff(store, nodes);
  }

  /** The map a listing works with: the cached one if it has enough entries, a rebuilt one otherwise. */
  ghost function TimesUsed(times: Option<Times>, store: Store, nodes: seq<string>): Times {
    if times.Some? && |times.value| >= |nodes| then times.value else Rebuilt(store, nodes)
  }

  /** A cached map that is long enough covers the listed nodes exactly when the entries of nodes that
      are not listed make up its surplus. */
  lemma CachedCoversIff(times: Times, nodes: seq<string>)
    requires NoDuplicates(nodes) && |times| >= |nodes|
    ensures (forall n | n in nodes :: n in times) <==> |times.Keys - Elements(nodes)| == |times| - |nodes|
  {
    var keys, listed := times.Keys, Elements(nodes);
    DistinctCount(nodes);
    assert keys == (keys - listed) + (keys * listed) && |keys| == |keys - listed| + |keys * listed|;
    SubsetCount(keys * listed, listed);
    assert listed <= keys <==> keys * listed == listed;
    assert (forall n | n in nodes :: n in times) <==> listed <= keys;
  }

  /** Without entries or rows of nodes that are not listed, the map always covers exactly the listed nodes. */
  lemma TimesUsedCover(times: Option<Times>, store: Store, nodes: seq<string>)
    requires NoDuplicates(nodes) && store.Keys <= Elements(nodes)
    requires times.Some? ==> times.value.Keys <= Elements(nodes)
    ensures TimesUsed(times, store, nodes).Keys == Elements(nodes)
  {
    if times.Some? && |times.value| >= |nodes| {
      DistinctCount(nodes);
      SubsetCount(times.value.Keys, Elements(nodes));
      assert |times.value.Keys| == |times.value|;
    } else {
      RebuiltCovers(store, nodes);
    }
  }

  /** An entry left over from a deleted node hides that a listed one is missing. */
  lemma LeftoverHidesNode(gone: string, n: string, time: string)
    requires gone != n
    ensures n !in TimesUsed(Some(map[gone := time]), map[n := Row("", time)], [n])
  {
  }

  // ----- report documents -----

  ghost function Missed(names: seq<string>, reports: map<string, string>): seq<string> {
    if names == [] then []
    else
      var rest, last := Missed(names[..|names| - 1], reports), names[|names| - 1];
      if last in reports then rest else rest + [last]
  }

  lemma {:induction false} MissedMembers(names: seq<string>, reports: map<string, string>)
    ensures forall n :: n in Missed(names, reports) <==> n in names && n !in reports
  {
    if names != [] {
      var init, last := names[..|names| - 1], names[|names| - 1];
      assert names == init + [last];
      MissedMembers(init, reports);
    }
  }

  /** Misses are counted position by position, so a name asked for twice may count twice. */
  lemma {:induction false} MissedEach(a: seq<string>, b: seq<string>, n: string, reports: map<string, string>)
    ensures Missed(a + b, reports) == Missed(a, reports) + Missed(b, reports)
    ensures Missed([n], reports) == if n in reports then [] else [n]
  {
    assert [n][..0] == [];
    if b == [] {
      assert a + b == a;
    } else {
      assert (a + b)[..|a + b| - 1] == a + b[..|b| - 1];
      MissedEach(a, b[..|b| - 1], n, reports);
    }
  }

  ghost function FromStore(store: Store, names: seq<string>): map<string, Option<string>> {
    map n | n in names && n in store :: Some(store[n].report)
  }

  ghost function FromCache(reports: map<string, string>, names: seq<string>): map<string, Option<string>> {
    map n | n in names :: if n in reports then Some(reports[n]) else None
  }

  /** More than ten misses: everything is read from the table. Otherwise only the misses are. */
  ghost function Served(store: Store, reports: map<string, string>, names: seq<string>): map<string, Option<string>> {
    if |Missed(names, reports)| > MAX_MISSES then FromStore(store, names)
    else FromCache(reports, names) + FromStore(store, Missed(names, reports))
  }

  /** Every name with a row gets its stored report. */
  ghost predicate ServesStore(store: Store, names: seq<string>, served: map<string, Option<string>>) {
    forall n | n in names && n in store :: n in served && served[n] == Some(store[n].report)
  }

  ghost predicate AgreesOn(store: Store, reports: map<string, string>, names: seq<string>) {
    forall n | n in names && n in store && n in reports :: reports[n] == store[n].report
  }

  /** Reading through the cache is reading the table exactly when the entries it serves agree with
      the table or the eleventh miss bypasses them. */
  lemma ServedIff(store: Store, reports: map<string, string>, names: seq<string>)
    ensures ServesStore(store, names, Served(store, reports, names))
            <==> |Missed(names, reports)| > MAX_MISSES || AgreesOn(store, reports, names)
  {
    var served := Served(store, reports, names);
    MissedMembers(names, reports);
    if |Missed(names, reports)| <= MAX_MISSES {
      if AgreesOn(store, reports, names) {
        forall n | n in names && n in store ensures n in served && served[n] == Some(store[n].report) {
          if n in reports { assert n !in Missed(names, reports); }
        }
      } else {
        var n :| n in names && n in store && n in reports && reports[n] != store[n].report;
        assert n !in Missed(names, reports);
        assert served[n] == Some(reports[n]);
      }
    }
  }

  /** What is served for a name without a row: nothing past ten misses, else what is cached, if anything. */
  lemma ServedWithoutRow(store: Store, reports: map<string, string>, names: seq<string>, n: string)
    requires n !in store
    ensures |Missed(names, reports)| > MAX_MISSES ==> n !in Served(store, reports, names)
    ensures |Missed(names, reports)| <= MAX_MISSES ==>
              && (n in Served(store, reports, names) <==> n in names)
              && (n in names ==> Served(store, reports, names)[n] == if n in reports then Some(reports[n]) else None)
  {
  }

  function FilledWith(found: map<string, Option<string>>, name: string): string {
    if name in found && found[name].Some? then found[name].value else EMPTY_REPORT
  }

  ghost function Filled(reports: map<string, string>, found: map<string, Option<string>>, names: seq<string>)
    : map<string, string>
  {
    reports + map n | n in names :: FilledWith(found, n)
  }

  lemma FilledStep(reports: map<string, string>, found: map<string, Option<string>>, names: seq<string>, name: string)
    ensures Filled(reports, found, names + [name])
         == Filled(reports, found, names)[name := FilledWith(found, name)]
  {
  }

  lemma FromCacheStep(reports: map<string, string>, names: seq<string>, name: string)
    ensures FromCache(reports, names + [name])
         == FromCache(reports, names)[name := if name in reports then Some(reports[name]) else None]
  {
  }

  /** Reading the table takes the fill lock when it is free and drops it when it is half an hour old. */
  function ReportLockAfter(lock: Option<int>, now: int): Option<int> {
    if lock.None? then Some(now) else if now - REPORT_LOCK_SECONDS > lock.value then None else lock
  }

  /** A fill lock that is never released is dropped by the first read more than half an hour after it was taken,
      and the read after that takes it again. */
  lemma StuckLockFreed(taken: int, first: int, second: int)
    requires taken <= first <= second
    ensures var once := ReportLockAfter(Some(taken), first);
            if first <= taken + 1800 then once == Some(taken)
            else once == None && ReportLockAfter(once, second) == Some(second)
  {
  }

  method FillZeros(times: Times, nodes: seq<string>) returns (reportTimeMap: Times)
    ensures reportTimeMap == ZeroFilled(nodes, times)
  {
    reportTimeMap := times;
    assert ZeroFilled([], times) == times;
    for i := 0 to |nodes|
      invariant reportTimeMap == ZeroFilled(nodes[..i], times)
    {
      assert nodes[..i + 1] == nodes[..i] + [nodes[i]];
      ZeroFilledStep(nodes[..i], nodes[i], times);
      if nodes[i] !in reportTimeMap {
        reportTimeMap := reportTimeMap[nodes[i] := ZERO_TIME];
      }
    }
    assert nodes[..|nodes|] == nodes;
  }

  // ----- the cache object -----

  class Cache {
    var times: Option<Times>
    var reports: map<string, string>
    var pending: map<string, Pending>
    var timeLock: Option<int>
    var reportLock: Option<int>

    constructor ()
      ensures times == None && reports == map[] && pending == map[] && timeLock == None && reportLock == None
    {
      times, reports, pending, timeLock, reportLock := None, map[], map[], None, None;
    }

    method SaveCache(cutoff: int)
      modifies this`times, this`pending
      ensures times == Some(Flushed(old(times), old(pending), cutoff))
      ensures pending == Remaining(old(pending), cutoff)
    {
      var reportTimeMap := Base(times);
      ghost var was, base := pending, reportTimeMap;
      var keys := pending.Keys;
      assert PartRemaining(was, keys, cutoff) == was;
      assert PartFlushed(base, was, keys, cutoff) == base;
      while keys != {}
        invariant keys <= was.Keys
        invariant reportTimeMap == PartFlushed(base, was, keys, cutoff)
        invariant pending == PartRemaining(was, keys, cutoff)
        decreases keys
      {
        var key :| key in keys;
        PartFlushedStep(base, was, keys, key, cutoff);
        PartRemainingStep(was, keys, key, cutoff);
        if pending[key].at < cutoff {
          reportTimeMap := reportTimeMap[key := pending[key].value];
          pending := pending - {key};
        }
        keys := keys - {key};
      }
      times := Some(reportTimeMap);
      assert PartFlushed(base, was, {}, cutoff) == Flushed(old(times), was, cutoff);
      assert PartRemaining(was, {}, cutoff) == Remaining(was, cutoff);
    }

    /** `tick` says whether the timer has fired; a lock older than two minutes is only removed. */
    method ShadowCreateOrUpdateCacheSet(name: string, row: Row, at: int, tick: bool, now: int)
      modifies this
      ensures var queued := old(pending)[name := Pending(row.time, at)];
              if tick && old(timeLock).None?
              then times == Some(Flushed(old(times), queued, now)) && pending == Remaining(queued, now)
              else times == old(times) && pending == queued
      ensures timeLock == if tick && old(timeLock).Some? && now - TIME_LOCK_SECONDS <= old(timeLock).value
                          then old(timeLock) else if tick then None else old(timeLock)
      ensures reports == old(reports)[name := row.report] && reportLock == old(reportLock)
    {
      pending := pending[name := Pending(row.time, at)];
      if tick {
        if timeLock.Some? {
          if now - TIME_LOCK_SECONDS > timeLock.value {
            timeLock := None;
          }
        } else {
          timeLock := Some(now);
          SaveCache(now);
          timeLock := None;
        }
      }
      reports := reports[name := row.report];
    }

    /** Without a time map the rest is left alone, even the pending entry. */
    method ShadowDeleteCache(name: string)
      modifies this`times, this`pending, this`reports
      ensures old(times).None? ==> times == old(times) && pending == old(pending) && reports == old(reports)
      ensures old(times).Some? ==>
        times == Some(old(times).value - {name}) && pending == old(pending) - {name} && reports == old(reports) - {name}
    {
      if times.None? {
        return;
      }
      pending := pending - {name};
      times := Some(times.value - {name});
      reports := reports - {name};
    }

    method SetNodeShadowCache(store: Store, nodes: seq<string>) returns (reportTimeMap: Times)
      modifies this`times
      ensures reportTimeMap == Rebuilt(store, nodes) && times == Some(reportTimeMap)
    {
      reportTimeMap := StoredTimes(store);
      assert |reportTimeMap.Keys| == |store.Keys|;
      if |reportTimeMap| < |nodes| {
        reportTimeMap := FillZeros(reportTimeMap, nodes);
      }
      times := Some(reportTimeMap);
    }

    method GetAllShadowReportTime(store: Store, nodes: seq<string>) returns (reportTimeMap: Times)
      modifies this`times
      ensures reportTimeMap == TimesUsed(old(times), store, nodes)
      ensures times == Some(reportTimeMap)
    {
      if times.None? {
        reportTimeMap := SetNodeShadowCache(store, nodes);
        return;
      }
      reportTimeMap := times.value;
      if |reportTimeMap| < |nodes| {
        reportTimeMap := SetNodeShadowCache(store, nodes);
      }
    }

    /** The table's answer, and whether a background fill has been started. */
    method SetShadowReportCacheByNames(store: Store, names: seq<string>, now: int)
      returns (reportMap: map<string, Option<string>>, filling: bool)
      modifies this`reportLock
      ensures reportMap == FromStore(store, names)
      ensures filling <==> old(reportLock).None?
      ensures reportLock == ReportLockAfter(old(reportLock), now)
    {
      reportMap := map n | n in names && n in store :: Some(store[n].report);
      filling := reportLock.None?;
      if reportLock.Some? {
        if now - REPORT_LOCK_SECONDS > reportLock.value {
          reportLock := None;
        }
      } else {
        reportLock := Some(now);
      }
    }

    method SetShadowReportCache(reportMap: map<string, Option<string>>, names: seq<string>)
      modifies this`reports, this`reportLock
      ensures reports == Filled(old(reports), reportMap, names) && reportLock == None
    {
      ghost var was := reports;
      assert Filled(was, reportMap, []) == was;
      for i := 0 to |names|
        invariant reports == Filled(was, reportMap, names[..i])
      {
        assert names[..i + 1] == names[..i] + [names[i]];
        FilledStep(was, reportMap, names[..i], names[i]);
        reports := reports[names[i] := FilledWith(reportMap, names[i])];
      }
      assert names[..|names|] == names;
      reportLock := None;
    }

    method GetShadowReportCacheByNames(store: Store, names: seq<string>, now: int)
      returns (reportMap: map<string, Option<string>>)
      modifies this`reportLock
      ensures reportMap == Served(store, reports, names)
      ensures reportLock == if Missed(names, reports) == [] then old(reportLock)
                            else ReportLockAfter(old(reportLock), now)
    {
      reportMap := map[];
      var updateNames: seq<string> := [];
      for i := 0 to |names|
        invariant reportMap == FromCache(reports, names[..i])
        invariant updateNames == Missed(names[..i], reports) && |updateNames| <= MAX_MISSES
        invariant reportLock == old(reportLock)
      {
        assert names[..i + 1] == names[..i] + [names[i]];
        assert names[..i + 1][..i] == names[..i];
        FromCacheStep(reports, names[..i], names[i]);
        if names[i] !in reports {
          updateNames := updateNames + [names[i]];
          if |updateNames| > MAX_MISSES {
            MissesGrow(names, i + 1, reports);
            var filling;
            reportMap, filling := SetShadowReportCacheByNames(store, names, now);
            return;
          }
        }
        reportMap := reportMap[names[i] := if names[i] in reports then Some(reports[names[i]]) else None];
      }
      assert names[..|names|] == names;
      if |updateNames| > 0 {
        var updateMap, filling := SetShadowReportCacheByNames(store, updateNames, now);
        reportMap := reportMap + updateMap;
      } else {
        assert FromStore(store, updateNames) == map[];
      }
    }
  }

  lemma MissesGrow(names: seq<string>, i: nat, reports: map<string, string>)
    requires i <= |names|
    ensures |Missed(names[..i], reports)| <= |Missed(names, reports)|
    decreases |names|
  {
    if i < |names| {
      var init := names[..|names| - 1];
      assert init[..i] == names[..i];
      MissesGrow(init, i, reports);
    } else {
      assert names[..i] == names;
    }
  }
}
