/** The tables behind the plugins, and the queries the services make of them. */
module Database {
  import opened Collections
  import opened Model
  import opened Namespace

  /** A shadow row as loaded from the table; editing it changes the table only when written back. */
  class Shadow {
    const name: string
    var desire: Option<Desire>

    constructor (name: string, desire: Option<Desire>)
      ensures this.name == name && this.desire == desire
    {
      this.name := name;
      this.desire := desire;
    }
  }

  /** The tables a transaction covers. */
  datatype Snapshot = Snapshot(
    apps: map<string, App>, nodes: map<string, Labels>, shadows: map<string, Option<Desire>>,
    resources: map<Key, string>, labelled: set<Key>, placed: set<(string, string)>, useRows: seq<(string, Key)>)

  class Tables {
    const matches: Matcher
    var apps: map<string, App>
    var nodes: map<string, Labels>
    var shadows: map<string, Option<Desire>>
    var resources: map<Key, string>
    var labelled: set<Key>
    var crons: map<string, string>
    var placed: set<(string, string)>
    var useRows: seq<(string, Key)>

    /** The reference table has no unique key: an app has a row for every volume that mounts the resource. */
    ghost function Uses(): set<(string, Key)>
      reads this
    {
      Elements(useRows)
    }

    ghost function View(): State
      reads this
    {
      State(matches, apps, nodes, shadows, resources, labelled, crons, placed, Uses())
    }

    constructor (matches: Matcher)
      ensures View() == Empty(matches)
    {
      this.matches := matches;
      apps, nodes, shadows, resources, crons := map[], map[], map[], map[], map[];
      labelled, placed, useRows := {}, {}, [];
    }

    function BeginTx(): Snapshot
      reads this
    {
      Snapshot(apps, nodes, shadows, resources, labelled, placed, useRows)
    }

    /** Cron rows are not part of the transaction. */
    method Rollback(tx: Snapshot)
      modifies this
      ensures BeginTx() == tx && crons == old(crons)
    {
      apps, nodes, shadows := tx.apps, tx.nodes, tx.shadows;
      resources, labelled, placed, useRows := tx.resources, tx.labelled, tx.placed, tx.useRows;
    }

    // ----- queries; a table is listed in whatever order it comes -----

    method ListApplication() returns (order: seq<string>)
      ensures Lists(order, apps.Keys)
    {
      order := Enumerate(apps.Keys);
    }

    method ListNode(selector: string) returns (names: seq<string>)
      ensures Lists(names, set n | n in nodes && matches(selector, nodes[n]))
    {
      names := Enumerate(set n | n in nodes && matches(selector, nodes[n]));
    }

    /** One name for every row, so an app may be listed several times. */
    method ListAppsByResource(key: Key) returns (names: seq<string>)
      ensures names == AppsUsing(useRows, key) && Elements(names) == Users(View(), key)
    {
      names := [];
      for i := 0 to |useRows|
        invariant names == AppsUsing(useRows[..i], key)
      {
        assert useRows[..i + 1][..i] == useRows[..i];
        if useRows[i].1 == key {
          names := names + [useRows[i].0];
        }
      }
      assert useRows[..|useRows|] == useRows;
      AppsUsingAre(useRows, key);
      forall a ensures a in names <==> a in Users(View(), key) {
        if (a, key) in useRows { assert (a, key) in Uses() && (a, key).1 == key; }
      }
    }

    method ListShadowByNames(names: seq<string>) returns (rows: seq<Shadow>)
      ensures forall i | 0 <= i < |rows| :: fresh(rows[i]) && rows[i].name in names && rows[i].name in shadows
      ensures forall i | 0 <= i < |rows| :: rows[i].desire == shadows[rows[i].name]
      ensures forall i, j | 0 <= i < j < |rows| :: rows[i].name != rows[j].name
      ensures forall n | n in names && n in shadows :: exists i :: 0 <= i < |rows| && rows[i].name == n
    {
      var found := Enumerate(set n | n in names && n in shadows);
      rows := [];
      for k := 0 to |found|
        invariant |rows| == k
        invariant forall i | 0 <= i < k :: fresh(rows[i]) && rows[i].name == found[i]
        invariant forall i | 0 <= i < k :: found[i] in shadows && rows[i].desire == shadows[found[i]]
      {
        assert found[k] in Elements(found);
        var row := new Shadow(found[k], shadows[found[k]]);
        rows := rows + [row];
      }
      forall n | n in names && n in shadows ensures exists i :: 0 <= i < |rows| && rows[i].name == n {
        assert n in Elements(found);
        var i :| 0 <= i < |found| && found[i] == n;
        assert rows[i].name == n;
      }
      forall i | 0 <= i < |rows| ensures rows[i].name in names { assert found[i] in Elements(found); }
    }

    // ----- updates -----

    method UpdateDesires(rows: seq<Shadow>)
      requires forall i, j | 0 <= i < j < |rows| :: rows[i].name != rows[j].name
      modifies this`shadows
      ensures shadows.Keys == old(shadows).Keys + set i | 0 <= i < |rows| :: rows[i].name
      ensures forall i | 0 <= i < |rows| :: rows[i].name in shadows && shadows[rows[i].name] == rows[i].desire
      ensures forall n | n in old(shadows) && (forall i | 0 <= i < |rows| :: rows[i].name != n) ::
        n in shadows && shadows[n] == old(shadows)[n]
    {
      for k := 0 to |rows|
        invariant shadows.Keys == old(shadows).Keys + set i | 0 <= i < k :: rows[i].name
        invariant forall i | 0 <= i < k :: rows[i].name in shadows && shadows[rows[i].name] == rows[i].desire
        invariant forall n | n in old(shadows) && (forall i | 0 <= i < k :: rows[i].name != n) ::
          n in shadows && shadows[n] == old(shadows)[n]
      {
        shadows := shadows[rows[k].name := rows[k].desire];
      }
    }

    method RefreshNodesIndexByApp(app: string, ns: seq<string>)
      modifies this`placed
      ensures placed == WithRow(old(placed), app, Elements(ns))
    {
      placed := set p | p in placed && p.0 != app;
      ghost var rest := placed;
      for k := 0 to |ns|
        invariant placed == rest + set b | b in ns[..k] :: (app, b)
      {
        placed := placed + {(app, ns[k])};
        assert ns[..k + 1] == ns[..k] + [ns[k]];
      }
      assert ns[..|ns|] == ns;
    }

    method RefreshAppsIndexByNode(node: string, as_: seq<string>)
      modifies this`placed
      ensures placed == WithColumn(old(placed), node, Elements(as_))
    {
      placed := set p | p in placed && p.1 != node;
      ghost var rest := placed;
      for k := 0 to |as_|
        invariant placed == rest + set a | a in as_[..k] :: (a, node)
      {
        placed := placed + {(as_[k], node)};
        assert as_[..k + 1] == as_[..k] + [as_[k]];
      }
      assert as_[..|as_|] == as_;
    }

    /** The config or the secret rows of one app: all are deleted, then one is inserted for each name. */
    method RefreshResourceIndexByApp(app: string, kind: Kind, names: seq<string>)
      modifies this`useRows
      ensures useRows == RowsBut(old(useRows), app, kind) + RowsOf(app, kind, names)
      ensures Uses() == (set p | p in old(Uses()) && !(p.0 == app && p.1.kind == kind)) +
                        (set n | n in names :: (app, Key(kind, n)))
    {
      DeleteIndex(app, kind);
      ghost var rest := useRows;
      for k := 0 to |names|
        invariant useRows == rest + RowsOf(app, kind, names[..k])
      {
        assert names[..k + 1][..k] == names[..k];
        useRows := useRows + [(app, Key(kind, names[k]))];
      }
      assert names[..|names|] == names;
      RowsButAre(old(useRows), app, kind);
      RowsOfAre(app, kind, names);
    }

    method DeleteIndex(app: string, kind: Kind)
      modifies this`useRows
      ensures useRows == RowsBut(old(useRows), app, kind)
    {
      var rows: seq<(string, Key)> := [];
      for i := 0 to |useRows|
        invariant rows == RowsBut(useRows[..i], app, kind) && useRows == old(useRows)
      {
        assert useRows[..i + 1][..i] == useRows[..i];
        if !(useRows[i].0 == app && useRows[i].1.kind == kind) {
          rows := rows + [useRows[i]];
        }
      }
      assert useRows[..|useRows|] == useRows;
      useRows := rows;
    }
  }

  // ----- rows of the reference table -----

  ghost function AppsUsing(rows: seq<(string, Key)>, key: Key): seq<string> {
    if rows == [] then []
    else
      var rest, last := AppsUsing(rows[..|rows| - 1], key), rows[|rows| - 1];
      if last.1 == key then rest + [last.0] else rest
  }

  lemma {:induction false} AppsUsingAre(rows: seq<(string, Key)>, key: Key)
    ensures forall a :: a in AppsUsing(rows, key) <==> (a, key) in rows
  {
    if rows != [] {
      assert rows == rows[..|rows| - 1] + [rows[|rows| - 1]];
      AppsUsingAre(rows[..|rows| - 1], key);
    }
  }

  ghost function RowsBut(rows: seq<(string, Key)>, app: string, kind: Kind): seq<(string, Key)> {
    if rows == [] then []
    else
      var rest, last := RowsBut(rows[..|rows| - 1], app, kind), rows[|rows| - 1];
      if last.0 == app && last.1.kind == kind then rest else rest + [last]
  }

  lemma {:induction false} RowsButAre(rows: seq<(string, Key)>, app: string, kind: Kind)
    ensures forall p :: p in RowsBut(rows, app, kind) <==> p in rows && !(p.0 == app && p.1.kind == kind)
  {
    if rows != [] {
      assert rows == rows[..|rows| - 1] + [rows[|rows| - 1]];
      RowsButAre(rows[..|rows| - 1], app, kind);
    }
  }

  ghost function RowsOf(app: string, kind: Kind, names: seq<string>): seq<(string, Key)> {
    if names == [] then [] else RowsOf(app, kind, names[..|names| - 1]) + [(app, Key(kind, names[|names| - 1]))]
  }

  lemma {:induction false} RowsOfAre(app: string, kind: Kind, names: seq<string>)
    ensures forall p :: p in RowsOf(app, kind, names) <==> p.0 == app && p.1.kind == kind && p.1.name in names
  {
    if names != [] {
      assert names == names[..|names| - 1] + [names[|names| - 1]];
      RowsOfAre(app, kind, names[..|names| - 1]);
    }
  }

  method Enumerate<T(!new)>(s: set<T>) returns (order: seq<T>)
    ensures Lists(order, s)
  {
    order := [];
    var rest := s;
    while rest != {}
      invariant rest <= s && NoDuplicates(order)
      invariant forall x :: x in order <==> x in s - rest
      decreases rest
    {
      var x :| x in rest;
      assert x !in order;
      rest, order := rest - {x}, order + [x];
    }
  }
}
