/** The two edits that service/node.go makes to one app list of a desire, and what they
    mean for the set of entries. */
module AppLists {
  import opened Collections
  import opened Model

  ghost predicate NamesDistinct(infos: seq<AppInfo>) {
    forall i, j | 0 <= i < j < |infos| :: infos[i].name != infos[j].name
  }

  /** The list holds exactly the wanted entries, one per app name. */
  ghost predicate Exactly(infos: seq<AppInfo>, wanted: set<AppInfo>) {
    NamesDistinct(infos) && Elements(infos) == wanted
  }

  /** Position of the last entry called `name`, or -1. */
  function LastIndex(infos: seq<AppInfo>, name: string): (idx: int)
    ensures -1 <= idx < |infos|
    ensures idx >= 0 ==> infos[idx].name == name
    ensures forall i | idx < i < |infos| :: infos[i].name != name
  {
    if infos == [] then -1
    else if infos[|infos| - 1].name == name then |infos| - 1
    else LastIndex(infos[..|infos| - 1], name)
  }

  function Upsert(infos: seq<AppInfo>, info: AppInfo): seq<AppInfo> {
    var idx := LastIndex(infos, info.name);
    if idx < 0 then infos + [info] else infos[idx := info]
  }

  function Without(infos: seq<AppInfo>, name: string): seq<AppInfo> {
    if infos == [] then []
    else
      var rest := Without(infos[..|infos| - 1], name);
      if infos[|infos| - 1].name != name then rest + [infos[|infos| - 1]] else rest
  }

  ghost function OtherThan(wanted: set<AppInfo>, name: string): set<AppInfo> {
    set w | w in wanted && w.name != name
  }

  lemma UpsertExactly(infos: seq<AppInfo>, wanted: set<AppInfo>, info: AppInfo)
    requires Exactly(infos, wanted)
    ensures Exactly(Upsert(infos, info), OtherThan(wanted, info.name) + {info})
  {
    var r := Upsert(infos, info);
    var idx := LastIndex(infos, info.name);
    forall x ensures x in r <==> x in OtherThan(wanted, info.name) + {info} {
      if x in r {
        var i :| 0 <= i < |r| && r[i] == x;
        if x != info {
          assert infos[i] == x;
        }
      }
      if x in OtherThan(wanted, info.name) {
        var i :| 0 <= i < |infos| && infos[i] == x;
        assert r[i] == x;
      }
      if x == info {
        assert r[if idx < 0 then |infos| else idx] == info;
      }
    }
  }

  lemma {:induction false} WithoutMembers(infos: seq<AppInfo>, name: string)
    ensures forall x :: x in Without(infos, name) <==> x in infos && x.name != name
    ensures NamesDistinct(infos) ==> NamesDistinct(Without(infos, name))
  {
    if infos != [] {
      var init, last := infos[..|infos| - 1], infos[|infos| - 1];
      assert infos == init + [last];
      WithoutMembers(init, name);
    }
  }

  lemma WithoutExactly(infos: seq<AppInfo>, wanted: set<AppInfo>, name: string)
    requires Exactly(infos, wanted)
    ensures Exactly(Without(infos, name), OtherThan(wanted, name))
  {
    WithoutMembers(infos, name);
  }

  lemma DistinctNamesDistinct(infos: seq<AppInfo>)
    requires NamesDistinct(infos)
    ensures NoDuplicates(infos)
  {
  }

  /** Inserting or replacing an entry leaves the others where they are, and a new one comes last. */
  lemma UpsertOrder(infos: seq<AppInfo>, info: AppInfo)
    requires NamesDistinct(infos)
    ensures var r := Upsert(infos, info);
            && |infos| <= |r| <= |infos| + 1
            && (forall i | 0 <= i < |infos| :: r[i] == if infos[i].name == info.name then info else infos[i])
            && (|r| == |infos| + 1 <==> forall x | x in infos :: x.name != info.name)
            && (|r| == |infos| + 1 ==> r[|infos|] == info)
  {
    var idx := LastIndex(infos, info.name);
    if idx >= 0 { assert infos[idx] in infos; }
  }
}
