/** Default node listing (service/node.go) and paging (models/filter.go). */
module Listing {
  import opened Collections
  import opened Model

  // ----- online nodes first -----

  /** `frequency` is the reporting interval in seconds, or None when the attribute is missing or malformed. */
  datatype Node = Node(name: string, frequency: Option<int>)

  const GRACE_SECONDS := 20

  /** What the listing looks at besides the nodes; `parse` reads a time, giving the zero time for a malformed one. */
  datatype Clock = Clock(times: map<string, string>, parse: string -> int, now: int)

  predicate Online(c: Clock, node: Node)
    requires node.frequency.Some?
  {
    && node.name in c.times && c.times[node.name] != ""
    && c.now < c.parse(c.times[node.name]) + node.frequency.value + GRACE_SECONDS
  }

  /** A node is online while its last report is younger than its reporting interval and twenty seconds, and so up
      to one moment and not after it; a node that never reported is not. */
  lemma OnlineWhileFresh(c: Clock, node: Node, now: int)
    requires node.frequency.Some?
    ensures node.name !in c.times || c.times[node.name] == "" ==> !Online(c.(now := now), node)
    ensures node.name in c.times && c.times[node.name] != "" ==>
              (Online(c.(now := now), node) <==> now - c.parse(c.times[node.name]) < node.frequency.value + 20)
    ensures Online(c, node) && now <= c.now ==> Online(c.(now := now), node)
  {
  }

  ghost predicate Readable(nodes: seq<Node>) {
    forall i | 0 <= i < |nodes| :: nodes[i].frequency.Some?
  }

  /** Position `x` belongs before position `y`: it is online while the other is not, or has the same
      status and stood earlier. */
  ghost predicate Before(c: Clock, nodes: seq<Node>, x: int, y: int)
    requires Readable(nodes) && 0 <= x < |nodes| && 0 <= y < |nodes|
  {
    (Online(c, nodes[x]) && !Online(c, nodes[y])) || (Online(c, nodes[x]) == Online(c, nodes[y]) && x < y)
  }

  ghost predicate Sorted(c: Clock, nodes: seq<Node>, perm: seq<int>)
    requires Readable(nodes)
  {
    && (forall i | 0 <= i < |perm| :: 0 <= perm[i] < |nodes|)
    && forall i, j | 0 <= i < j < |perm| :: Before(c, nodes, perm[i], perm[j])
  }

  /** `perm` lists as many positions as there are nodes, online first and otherwise in their old order. */
  ghost predicate OnlineFirst(c: Clock, nodes: seq<Node>, perm: seq<int>)
    requires Readable(nodes)
  {
    |perm| == |nodes| && Sorted(c, nodes, perm)
  }

  ghost function Picked(nodes: seq<Node>, perm: seq<int>): seq<Node>
    requires forall i | 0 <= i < |perm| :: 0 <= perm[i] < |nodes|
  {
    seq(|perm|, i requires 0 <= i < |perm| => nodes[perm[i]])
  }

  /** `list` holds the first `idx` nodes of one status, and `pos` the places they came from, in order. */
  ghost predicate Sifted(c: Clock, nodes: seq<Node>, idx: int, online: bool, list: seq<Node>, pos: seq<int>) {
    && |list| == |pos| && idx <= |nodes|
    && (forall i | 0 <= i < |pos| :: 0 <= pos[i] < idx && nodes[pos[i]] == list[i])
    && (forall i | 0 <= i < |list| :: list[i].frequency.Some? && Online(c, list[i]) == online)
    && (forall i, j | 0 <= i < j < |pos| :: pos[i] < pos[j])
  }

  lemma SiftedOn(c: Clock, nodes: seq<Node>, idx: nat, online: bool, list: seq<Node>, pos: seq<int>)
    requires idx < |nodes| && Sifted(c, nodes, idx, online, list, pos)
    ensures Sifted(c, nodes, idx + 1, online, list, pos)
    ensures nodes[idx].frequency.Some? && Online(c, nodes[idx]) == online ==>
              Sifted(c, nodes, idx + 1, online, list + [nodes[idx]], pos + [idx])
  {
  }

  lemma SiftedJoined(c: Clock, nodes: seq<Node>, onlineNode: seq<Node>, on: seq<int>,
                     offlineNode: seq<Node>, off: seq<int>)
    requires Readable(nodes) && |on| + |off| == |nodes|
    requires Sifted(c, nodes, |nodes|, true, onlineNode, on) && Sifted(c, nodes, |nodes|, false, offlineNode, off)
    ensures OnlineFirst(c, nodes, on + off) && onlineNode + offlineNode == Picked(nodes, on + off)
  {
  }

  /** The result is the stable reordering with online nodes first; any unreadable node fails the listing. */
  method DefaultListNode(c: Clock, nodes: seq<Node>) returns (res: Option<seq<Node>>, ghost perm: seq<int>)
    ensures res.Some? <==> Readable(nodes)
    ensures res.Some? ==> OnlineFirst(c, nodes, perm)
    ensures res.Some? ==> res.value == Picked(nodes, perm)
  {
    var onlineNode: seq<Node>, offlineNode: seq<Node> := [], [];
    ghost var on: seq<int>, off: seq<int> := [], [];
    for idx := 0 to |nodes|
      invariant forall i | 0 <= i < idx :: nodes[i].frequency.Some?
      invariant |on| + |off| == idx
      invariant Sifted(c, nodes, idx, true, onlineNode, on)
      invariant Sifted(c, nodes, idx, false, offlineNode, off)
    {
      var node := nodes[idx];
      if node.frequency.None? {
        return None, [];
      }
      var onLineFlag := false;
      if node.name in c.times && c.times[node.name] != "" {
        if c.now < c.parse(c.times[node.name]) + node.frequency.value + GRACE_SECONDS {
          onLineFlag := true;
        }
      }
      SiftedOn(c, nodes, idx, true, onlineNode, on);
      SiftedOn(c, nodes, idx, false, offlineNode, off);
      if onLineFlag {
        onlineNode, on := onlineNode + [node], on + [idx];
      } else {
        offlineNode, off := offlineNode + [node], off + [idx];
      }
    }
    SiftedJoined(c, nodes, onlineNode, on, offlineNode, off);
    perm := on + off;
    res := Some(onlineNode + offlineNode);
  }

  ghost function Positions(n: nat): (s: set<int>)
    ensures |s| == n && forall x :: x in s <==> 0 <= x < n
  {
    if n == 0 then {} else Positions(n - 1) + {n - 1}
  }

  /** Nothing is lost or listed twice. */
  lemma OnlineFirstPermutes(c: Clock, nodes: seq<Node>, perm: seq<int>)
    requires Readable(nodes) && OnlineFirst(c, nodes, perm)
    ensures NoDuplicates(perm) && Elements(perm) == Positions(|nodes|)
  {
    var all := Positions(|nodes|);
    DistinctCount(perm);
    SubsetCount(Elements(perm), all);
  }

  /** There is only one such order. */
  lemma OnlineFirstUnique(c: Clock, nodes: seq<Node>, p: seq<int>, q: seq<int>)
    requires Readable(nodes) && OnlineFirst(c, nodes, p) && OnlineFirst(c, nodes, q)
    ensures p == q
  {
    OnlineFirstPermutes(c, nodes, p);
    OnlineFirstPermutes(c, nodes, q);
    SortedUnique(c, nodes, p, q);
  }

  lemma {:induction false} SortedUnique(c: Clock, nodes: seq<Node>, p: seq<int>, q: seq<int>)
    requires Readable(nodes) && Sorted(c, nodes, p) && Sorted(c, nodes, q)
    requires |p| == |q| && Elements(p) == Elements(q)
    ensures p == q
  {
    if p != [] {
      assert p[0] in Elements(q) && q[0] in Elements(p);
      var i :| 0 <= i < |q| && q[i] == p[0];
      var j :| 0 <= j < |p| && p[j] == q[0];
      assert p[0] == q[0];
      assert p == [p[0]] + p[1..] && q == [q[0]] + q[1..];
      forall x ensures x in Elements(p[1..]) <==> x in Elements(q[1..]) {
        assert x in Elements(p) <==> x in Elements(q);
        assert p[0] !in p[1..] && q[0] !in q[1..];
      }
      SortedUnique(c, nodes, p[1..], q[1..]);
    }
  }

  // ----- paging, in 64-bit arithmetic -----

  const TWO_63 := 0x8000_0000_0000_0000
  const TWO_64 := 0x1_0000_0000_0000_0000

  type Int64 = x: int | -TWO_63 <= x < TWO_63 witness 0

  function Wrap(x: int): (r: Int64)
    ensures -TWO_63 <= x < TWO_63 ==> r == x
  {
    var m := x % TWO_64;
    if m >= TWO_63 then m - TWO_64 else m
  }

  /** Wrapping changes a number by a multiple of two to the 64. */
  lemma WrapCongruent(x: int)
    ensures Wrap(x) == x - TWO_64 * (x / TWO_64) || Wrap(x) == x - TWO_64 * (x / TWO_64 + 1)
  {
  }

  function Offset(pageNo: Int64, pageSize: Int64): Int64 {
    Wrap(((if pageNo <= 0 then 1 else pageNo) - 1) * pageSize)
  }

  function PageBounds(pageNo: Int64, pageSize: Int64, total: Int64): (Int64, Int64) {
    if pageSize <= 0 then (0, total)
    else
      var start := Offset(pageNo, pageSize);
      var end := Wrap(start + pageSize);
      if start > total then (0, 0) else (start, if end > total then total else end)
  }

  class Filter {
    var pageNo: Int64
    var pageSize: Int64

    constructor (pageNo: Int64, pageSize: Int64)
      ensures this.pageNo == pageNo && this.pageSize == pageSize
    {
      this.pageNo, this.pageSize := pageNo, pageSize;
    }

    method GetLimitOffset() returns (offset: Int64)
      modifies this`pageNo
      ensures pageNo == (if old(pageNo) <= 0 then 1 else old(pageNo)) && offset == Offset(old(pageNo), pageSize)
    {
      if pageNo <= 0 {
        pageNo := 1;
      }
      offset := Wrap((pageNo - 1) * pageSize);
    }

    method GetPagingParam(total: Int64) returns (start: Int64, end: Int64)
      modifies this`pageNo
      ensures (start, end) == PageBounds(old(pageNo), pageSize, total)
      ensures pageNo == if pageSize > 0 && old(pageNo) <= 0 then 1 else old(pageNo)
    {
      start, end := 0, total;
      if pageSize > 0 {
        start := GetLimitOffset();
        var offset := GetLimitOffset();
        end := Wrap(offset + pageSize);
        if end > total {
          end := total;
        }
        if start > total {
          start, end := 0, 0;
        }
      }
    }
  }

  /** The bounds can be used to slice exactly when the offset has not wrapped below zero and, if it
      falls inside the list, neither has the end. */
  lemma PageBoundsUsableIff(pageNo: Int64, pageSize: Int64, total: Int64)
    requires total >= 0
    ensures var (start, end) := PageBounds(pageNo, pageSize, total);
            0 <= start <= end <= total <==>
            pageSize <= 0 || Offset(pageNo, pageSize) > total ||
            (Offset(pageNo, pageSize) >= 0 && Offset(pageNo, pageSize) + pageSize < TWO_63)
  {
    var start := Offset(pageNo, pageSize);
    if pageSize > 0 && 0 <= start <= total && start + pageSize >= TWO_63 {
      assert (start + pageSize) % TWO_64 == start + pageSize;
    }
  }

  /** A page number large enough to wrap yields bounds that no slice accepts. */
  lemma PageBoundsWrap(total: Int64)
    requires total >= 0
    ensures PageBounds(TWO_63 / 2 + 1, 2, total).0 < 0
  {
    assert Offset(TWO_63 / 2 + 1, 2) == -TWO_63;
  }

  ghost function Page<T>(list: seq<T>, pageNo: Int64, pageSize: Int64): seq<T>
    requires |list| < TWO_63 && pageSize > 0 && 1 <= pageNo && pageNo * pageSize < TWO_63
  {
    InRange(pageNo, pageSize);
    PageBoundsUsableIff(pageNo, pageSize, |list|);
    var (start, end) := PageBounds(pageNo, pageSize, |list|);
    list[start..end]
  }

  lemma InRange(pageNo: int, pageSize: int)
    requires pageSize > 0 && 1 <= pageNo && pageNo * pageSize < TWO_63
    ensures 0 <= (pageNo - 1) * pageSize && (pageNo - 1) * pageSize + pageSize == pageNo * pageSize
  {
  }

  ghost function Pages<T>(list: seq<T>, k: nat, pageSize: Int64): seq<T>
    requires |list| < TWO_63 && pageSize > 0 && k * pageSize < TWO_63
    decreases k
  {
    if k == 0 then []
    else
      Fits(k, pageSize);
      Pages(list, k - 1, pageSize) + Page(list, k, pageSize)
  }

  lemma Fits(k: nat, pageSize: int)
    requires pageSize > 0 && k > 0
    ensures k <= k * pageSize && (k - 1) * pageSize + pageSize == k * pageSize
  {
  }

  /** As much of the list as there is from `a` up to `b`. */
  ghost function Part<T>(list: seq<T>, a: int, b: int): seq<T>
    requires 0 <= a <= b
  {
    if a > |list| then [] else list[a..if b <= |list| then b else |list|]
  }

  lemma OnePage<T>(list: seq<T>, k: nat, pageSize: Int64)
    requires |list| < TWO_63 && pageSize > 0 && k > 0 && k * pageSize < TWO_63 && k <= k * pageSize
    ensures 0 <= (k - 1) * pageSize <= k * pageSize
    ensures Page(list, k, pageSize) == Part(list, (k - 1) * pageSize, k * pageSize)
  {
    InRange(k, pageSize);
  }

  lemma PartsJoin<T>(list: seq<T>, a: nat, b: nat)
    requires a <= b
    ensures Part(list, 0, a) + Part(list, a, b) == Part(list, 0, b)
  {
  }

  /** The first pages, one after the other, are the list from its beginning, each element once and
      in order; with enough pages they are the whole list. */
  lemma {:induction false} PagesCover<T>(list: seq<T>, k: nat, pageSize: Int64)
    requires |list| < TWO_63 && pageSize > 0 && 0 <= k * pageSize < TWO_63
    ensures Pages(list, k, pageSize) == Part(list, 0, k * pageSize)
  {
    if k > 0 {
      Fits(k, pageSize);
      OnePage(list, k, pageSize);
      PagesCover(list, k - 1, pageSize);
      PartsJoin(list, (k - 1) * pageSize, k * pageSize);
    }
  }

  /** A page number below one is the first page, and without a page size the page is the whole list. */
  lemma PageDefaults<T>(list: seq<T>, pageNo: Int64, pageSize: Int64)
    requires |list| < TWO_63
    ensures pageNo < 1 ==> PageBounds(pageNo, pageSize, |list|) == PageBounds(1, pageSize, |list|)
    ensures pageSize <= 0 ==> var (start, end) := PageBounds(pageNo, pageSize, |list|);
                              start == 0 && end == |list| && list[start..end] == list
    ensures pageSize > 0 && Offset(pageNo, pageSize) > |list| ==> PageBounds(pageNo, pageSize, |list|) == (0, 0)
  {
  }
}
