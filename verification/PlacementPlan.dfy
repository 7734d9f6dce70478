/** What a plan promises, stated on the shards it returns: no disk twice, nodes evenly loaded, and
    nodes and disks taken in the order of their hashes. */
module PlacementPlan {
  import opened ByteCodec
  import opened Placement

  /** The nodes that have a disk. */
  ghost function NodeSet(disks: seq<Volume>): (r: set<string>)
  {
    set v | v in disks :: v.nodeId
  }

  /** The disks of a node, by position. */
  ghost function DisksOn(disks: seq<Volume>, node: string): (r: set<nat>)
  {
    set i: nat | i < |disks| && disks[i].nodeId == node
  }

  /** The shards on a node. */
  ghost function ShardsOn(shards: seq<Shard>, node: string): (r: set<nat>)
  {
    set i: nat | i < |shards| && shards[i].nodeId == node
  }

  /** The disk a shard is on. */
  function DiskOf(s: Shard): (v: Volume)
  {
    Volume(s.backendIndex, s.nodeId, s.volumeId)
  }

  lemma {:induction false} LoadIsSize(s: seq<Volume>, node: string)
    ensures Load(s, node) == |DisksOn(s, node)|
  {
    if s == [] {
      assert DisksOn(s, node) == {};
    } else {
      var n := |s| - 1;
      LoadIsSize(s[..n], node);
      assert DisksOn(s, node) == DisksOn(s[..n], node) + if s[n].nodeId == node then {n} else {};
    }
  }

  lemma {:induction false} LoadIsCount(s: seq<Volume>, node: string)
    ensures |DisksOf(s, node)| == Load(s, node)
  {
    if s != [] {
      LoadIsCount(s[..|s| - 1], node);
    }
  }

  /** The plan consists of the first disks of the preference order. */
  lemma PlanShards(hash: Hash, pl: Planner, bucket: string, key: string, data: nat, parity: nat)
    returns (chosen: seq<Volume>)
    requires PlanOf(hash, pl, bucket, key, data, parity).Ok?
    ensures data + parity <= |pl.disks| == |Preference(hash, pl, bucket, key)|
    ensures chosen == Preference(hash, pl, bucket, key)[..data + parity]
    ensures var shards := PlanOf(hash, pl, bucket, key, data, parity).value.shards;
            && |shards| == |chosen| == data + parity
            && (forall i :: 0 <= i < |shards| ==> DiskOf(shards[i]) == chosen[i] && shards[i].index == i)
            && (forall node :: ShardsOn(shards, node) == DisksOn(chosen, node))
  {
    hide Preference;
    PreferenceIsPermutation(hash, pl, bucket, key);
    chosen := Preference(hash, pl, bucket, key)[..data + parity];
  }

  /** With distinct disks no two shards are on one disk, and every shard is on a disk of the list. */
  lemma PlanIsDistinct(hash: Hash, pl: Planner, bucket: string, key: string, data: nat, parity: nat)
    requires PlanOf(hash, pl, bucket, key, data, parity).Ok?
    ensures var shards := PlanOf(hash, pl, bucket, key, data, parity).value.shards;
            && (forall i :: 0 <= i < |shards| ==> DiskOf(shards[i]) in pl.disks)
            && (Distinct(pl.disks) ==>
                  forall i, j :: 0 <= i < j < |shards| ==> DiskOf(shards[i]) != DiskOf(shards[j]))
  {
    hide Preference, PlanOf;
    var chosen := PlanShards(hash, pl, bucket, key, data, parity);
    PreferenceIsPermutation(hash, pl, bucket, key);
    if Distinct(pl.disks) {
      PreferenceIsDistinct(hash, pl, bucket, key, data + parity);
    }
    forall i | 0 <= i < |chosen|
      ensures chosen[i] in pl.disks
    {
      assert chosen[i] in multiset(Preference(hash, pl, bucket, key));
    }
  }

  /** Balance: one node carries two shards more than another only if the other has no disk left. */
  lemma PlanIsBalanced(hash: Hash, pl: Planner, bucket: string, key: string, data: nat, parity: nat, a: string,
                       b: string)
    requires PlanOf(hash, pl, bucket, key, data, parity).Ok? && a in NodeSet(pl.disks) && b in NodeSet(pl.disks)
    ensures var shards := PlanOf(hash, pl, bucket, key, data, parity).value.shards;
            |ShardsOn(shards, a)| + 1 < |ShardsOn(shards, b)| ==> |ShardsOn(shards, a)| == |DisksOn(pl.disks, a)|
  {
    hide Preference, Load, DisksOf, NodesOf, PlanOf, ShardsOn, DisksOn;
    var chosen := PlanShards(hash, pl, bucket, key, data, parity);
    NodesOfSet(pl.disks);
    PrefixIsBalanced(hash, pl, bucket, key, data + parity, a, b);
    LoadIsSize(chosen, a);
    LoadIsSize(chosen, b);
    LoadIsSize(pl.disks, a);
    LoadIsCount(pl.disks, a);
  }

  lemma {:induction false} DistinctSize<T(!new)>(s: seq<T>)
    requires Distinct(s)
    ensures |set x | x in s| == |s|
  {
    if s == [] {
      assert (set x | x in s) == {};
    } else {
      var n := |s| - 1;
      DistinctSize(s[..n]);
      assert (set x | x in s) == (set x | x in s[..n]) + {s[n]};
    }
  }

  lemma NodeCount(disks: seq<Volume>)
    ensures |NodesOf(disks)| == |NodeSet(disks)|
  {
    hide NodesOf;
    NodesOfSet(disks);
    NodesAreDistinct(disks);
    DistinctSize(NodesOf(disks));
    assert (set x | x in NodesOf(disks)) == NodeSet(disks);
  }

  /** With at least as many nodes as shards, every shard is on a node of its own. */
  lemma PlanSpreads(hash: Hash, pl: Planner, bucket: string, key: string, data: nat, parity: nat)
    requires PlanOf(hash, pl, bucket, key, data, parity).Ok? && data + parity <= |NodeSet(pl.disks)|
    ensures var shards := PlanOf(hash, pl, bucket, key, data, parity).value.shards;
            && |shards| == data + parity
            && forall i, j :: 0 <= i < j < |shards| ==> shards[i].nodeId != shards[j].nodeId
  {
    hide Preference, Load, NodesOf, NodeSet, PlanOf;
    var chosen := PlanShards(hash, pl, bucket, key, data, parity);
    var shards := PlanOf(hash, pl, bucket, key, data, parity).value.shards;
    NodeCount(pl.disks);
    PlanIsDistinct(hash, pl, bucket, key, data, parity);
    forall i, j | 0 <= i < j < |shards|
      ensures shards[i].nodeId != shards[j].nodeId
    {
      var node := shards[i].nodeId;
      NodesOfSet(pl.disks);
      assert DiskOf(shards[i]) in pl.disks;
      PrefixSpreads(hash, pl, bucket, key, data + parity, node);
      LoadIsSize(chosen, node);
      if shards[j].nodeId == node {
        SubsetSize({i, j}, DisksOn(chosen, node));
      }
    }
  }

  // In the order of hashes

  lemma {:induction false} DisksAppend(a: seq<Volume>, b: seq<Volume>, node: string)
    ensures DisksOf(a + b, node) == DisksOf(a, node) + DisksOf(b, node)
  {
    if b == [] {
      assert a + b == a;
    } else {
      var n := |b| - 1;
      assert (a + b)[..|a + b| - 1] == a + b[..n];
      DisksAppend(a, b[..n], node);
    }
  }

  lemma OneDisk(v: Volume, node: string)
    ensures DisksOf([v], node) == if v.nodeId == node then [v] else []
  {
    assert [v][..0] == [];
  }

  lemma {:induction false} RowDisks(lists: seq<seq<Volume>>, nodes: seq<string>, r: nat, n: nat, i: nat)
    requires ByNode(lists, nodes) && n <= |lists| && i < |nodes|
    ensures DisksOf(Row(lists, r, n), nodes[i]) == if i < n && r < |lists[i]| then [lists[i][r]] else []
  {
    hide DisksOf, ByNode;
    SameLength(lists, nodes);
    if n == 0 {
      NoDisks(nodes[i]);
    } else {
      var k := n - 1;
      RowDisks(lists, nodes, r, k, i);
      if r < |lists[k]| {
        var v := lists[k][r];
        NodeOfList(lists, nodes, k, r);
        NodesDiffer(lists, nodes, i, k);
        DisksAppend(Row(lists, r, k), [v], nodes[i]);
        OneDisk(v, nodes[i]);
      } else {
        assert Row(lists, r, k) + [] == Row(lists, r, k);
      }
    }
  }

  lemma NoDisks(node: string)
    ensures DisksOf([], node) == []
  {
  }

  lemma NodesDiffer(lists: seq<seq<Volume>>, nodes: seq<string>, i: nat, k: nat)
    requires ByNode(lists, nodes) && i < |nodes| && k < |nodes|
    ensures nodes[i] == nodes[k] <==> i == k
  {
  }

  lemma {:induction false} RowsDisks(lists: seq<seq<Volume>>, nodes: seq<string>, r: nat, i: nat)
    requires ByNode(lists, nodes) && i < |nodes|
    ensures |lists| == |nodes|
    ensures DisksOf(Rows(lists, r), nodes[i]) == lists[i][..Min(r, |lists[i]|)]
  {
    hide ByNode, Row, DisksOf;
    SameLength(lists, nodes);
    if r == 0 {
      NoDisks(nodes[i]);
    } else {
      RowsDisks(lists, nodes, r - 1, i);
      RowDisks(lists, nodes, r - 1, |lists|, i);
      DisksAppend(Rows(lists, r - 1), Row(lists, r - 1, |lists|), nodes[i]);
      OneMore(lists[i], r);
    }
  }

  lemma OneMore(l: seq<Volume>, r: nat)
    requires r >= 1
    ensures l[..Min(r, |l|)] == l[..Min(r - 1, |l|)] + if r - 1 < |l| then [l[r - 1]] else []
  {
  }

  lemma SameLength(lists: seq<seq<Volume>>, nodes: seq<string>)
    requires ByNode(lists, nodes)
    ensures |lists| == |nodes|
  {
  }

  /** What a node has given so far is the front of its list. */
  lemma TakenDisks(lists: seq<seq<Volume>>, nodes: seq<string>, r: nat, n: nat, i: nat)
    requires ByNode(lists, nodes) && n <= |lists| && i < |nodes|
    ensures DisksOf(Taken(lists, r, n), nodes[i]) <= lists[i]
  {
    hide ByNode, Row, Rows, DisksOf;
    SameLength(lists, nodes);
    RowsDisks(lists, nodes, r, i);
    RowDisks(lists, nodes, r, n, i);
    DisksAppend(Rows(lists, r), Row(lists, r, n), nodes[i]);
  }

  /** Two disks of a node keep their order among the disks of that node. */
  lemma {:induction false} DisksKeepOrder(s: seq<Volume>, node: string, a: nat) returns (x: nat)
    requires a < |s| && s[a].nodeId == node
    ensures x < |DisksOf(s, node)| && DisksOf(s, node)[x] == s[a]
    ensures x == |DisksOf(s[..a], node)|
  {
    var n := |s| - 1;
    if a < n {
      assert s[..n][..a] == s[..a];
      x := DisksKeepOrder(s[..n], node, a);
    } else {
      x := |DisksOf(s[..n], node)|;
    }
  }

  lemma {:induction false} MoreDisks(s: seq<Volume>, node: string, a: nat, b: nat)
    requires a < b <= |s| && s[a].nodeId == node
    ensures |DisksOf(s[..a], node)| < |DisksOf(s[..b], node)|
    decreases b - a
  {
    assert s[..b][..b - 1] == s[..b - 1];
    if a < b - 1 {
      MoreDisks(s, node, a, b - 1);
    }
  }

  /** The disks of one node in a plan: in hash order, and none passed over. */
  lemma NodeFollowsHashes(hash: Hash, pl: Planner, bucket: string, key: string, n: nat, a: nat)
    requires n <= |Preference(hash, pl, bucket, key)| && a < n
    ensures var chosen := Preference(hash, pl, bucket, key)[..n];
            var k := DiskKey(hash, KeyMaterial(pl, bucket, key));
            && (forall b :: a < b < n && chosen[b].nodeId == chosen[a].nodeId ==> k(chosen[a]) <= k(chosen[b]))
            && (forall v :: v in pl.disks && v.nodeId == chosen[a].nodeId && v !in chosen ==> k(chosen[a]) <= k(v))
  {
    hide Rows, StableOrder, KeyMaterial, Taken, ByNode, DisksOf, NodesOf, OrderedNodes, DiskKey, SortedBy;
    var material := KeyMaterial(pl, bucket, key);
    var nodes := OrderedNodes(hash, material, pl.disks);
    var lists := Lists(hash, material, pl.disks, nodes);
    var pref := Preference(hash, pl, bucket, key);
    var chosen, node := pref[..n], pref[a].nodeId;
    ListsByNode(hash, material, pl.disks);
    PreferenceIsPermutation(hash, pl, bucket, key);
    assert pref[a] in multiset(pref) && pref[a] in pl.disks;
    NodesOfSet(pl.disks);
    var i := NodePosition(hash, material, pl.disks, node);
    var r, t := PrefixIsTaken(lists, LongestList(lists), n);
    TakenDisks(lists, nodes, r, t, i);
    OrderIsSorted(DisksOf(pl.disks, node), DiskKey(hash, material));
    FrontFollows(pl.disks, chosen, node, lists[i], DiskKey(hash, material), a);
  }

  lemma FrontFollows(disks: seq<Volume>, chosen: seq<Volume>, node: string, list: seq<Volume>, k: Volume -> nat, a: nat)
    requires SortedBy(list, k) && multiset(list) == multiset(DisksOf(disks, node))
    requires DisksOf(chosen, node) <= list && a < |chosen| && chosen[a].nodeId == node
    ensures forall b :: a < b < |chosen| && chosen[b].nodeId == node ==> k(chosen[a]) <= k(chosen[b])
    ensures forall v :: v in disks && v.nodeId == node && v !in chosen ==> k(chosen[a]) <= k(v)
  {
    hide DisksOf;
    var front := DisksOf(chosen, node);
    var x := DisksKeepOrder(chosen, node, a);
    forall b | a < b < |chosen| && chosen[b].nodeId == node
      ensures k(chosen[a]) <= k(chosen[b])
    {
      var y := DisksKeepOrder(chosen, node, b);
      MoreDisks(chosen, node, a, b);
    }
    forall v | v in disks && v.nodeId == node && v !in chosen
      ensures k(chosen[a]) <= k(v)
    {
      DisksOfBag(disks, node, v);
      DisksOfBag(chosen, node, v);
      assert v in multiset(disks) && v in multiset(list) && v !in multiset(front);
      var y :| 0 <= y < |list| && list[y] == v;
      assert forall z :: 0 <= z < |front| ==> front[z] == list[z];
      assert y >= |front|;
    }
  }

  /** The first disks of the preference order, one a node, are in the order of the nodes. */
  lemma FirstRound(hash: Hash, pl: Planner, bucket: string, key: string, i: nat)
    requires i < |OrderedNodes(hash, KeyMaterial(pl, bucket, key), pl.disks)|
    ensures i < |Preference(hash, pl, bucket, key)|
    ensures Preference(hash, pl, bucket, key)[i].nodeId
            == OrderedNodes(hash, KeyMaterial(pl, bucket, key), pl.disks)[i]
  {
    hide StableOrder, KeyMaterial, NodesOf, DisksOf, Row, OrderedNodes, LongestList;
    var material := KeyMaterial(pl, bucket, key);
    var nodes := OrderedNodes(hash, material, pl.disks);
    var lists := Lists(hash, material, pl.disks, nodes);
    forall x | 0 <= x < |lists|
      ensures lists[x] != []
    {
      ListsNonempty(hash, material, pl.disks, x);
      OrderIsSorted(DisksOf(pl.disks, nodes[x]), DiskKey(hash, material));
    }
    ListsByNode(hash, material, pl.disks);
    RowZero(lists, |lists|, i);
    assert Rows(lists, 0) == [];
    assert Taken(lists, 0, |lists|) == Row(lists, 0, |lists|);
    TakenIsPrefix(lists, 0, |lists|);
    assert lists[i][0] in lists[i];
  }

  lemma {:induction false} RowZero(lists: seq<seq<Volume>>, n: nat, i: nat)
    requires n <= |lists| && i < n && forall x :: 0 <= x < |lists| ==> lists[x] != []
    ensures |Row(lists, 0, n)| == n && Row(lists, 0, n)[i] == lists[i][0]
  {
    FullRow(lists, n);
    FullRow(lists, n - 1);
    if i < n - 1 {
      RowZero(lists, n - 1, i);
    }
  }

  /** The round in which shard `i` was placed: how many shards its node had before. */
  ghost function Round(shards: seq<Shard>, i: nat): (r: nat)
    requires i < |shards|
  {
    |ShardsOn(shards[..i], shards[i].nodeId)|
  }

  function NodeHash(hash: Hash, pl: Planner, bucket: string, key: string, node: string): (h: nat)
  {
    hash("node:" + (Decimal(pl.epochId) + ":" + pl.clusterId + ":" + bucket + "/" + key) + ":" + node)
  }

  function DiskHash(hash: Hash, pl: Planner, bucket: string, key: string, volumeId: string): (h: nat)
  {
    hash("disk:" + (Decimal(pl.epochId) + ":" + pl.clusterId + ":" + bucket + "/" + key) + ":" + volumeId)
  }

  /** Where in the rounds a disk of the preference order was taken, and what was taken before. */
  lemma {:induction false} Coordinates(lists: seq<seq<Volume>>, rounds: nat, i: nat) returns (r: nat, x: nat)
    requires i < |Rows(lists, rounds)|
    ensures x < |lists| && r < |lists[x]| && Rows(lists, rounds)[i] == lists[x][r]
    ensures Rows(lists, rounds)[..i] == Taken(lists, r, x)
  {
    var front, row := Rows(lists, rounds - 1), Row(lists, rounds - 1, |lists|);
    if i < |front| {
      r, x := Coordinates(lists, rounds - 1, i);
      TakeConcat(front, row, i);
    } else {
      r := rounds - 1;
      x := Column(lists, r, |lists|, i - |front|);
      TakeConcat(front, row, i);
    }
  }

  lemma {:induction false} Column(lists: seq<seq<Volume>>, r: nat, n: nat, j: nat) returns (x: nat)
    requires n <= |lists| && j < |Row(lists, r, n)|
    ensures x < n && r < |lists[x]| && Row(lists, r, n)[j] == lists[x][r] && Row(lists, r, n)[..j] == Row(lists, r, x)
  {
    var front := Row(lists, r, n - 1);
    if j < |front| {
      x := Column(lists, r, n - 1, j);
      assert Row(lists, r, n)[..j] == front[..j];
    } else {
      x := n - 1;
    }
  }

  /** Later means in a later round, or behind in the same one. */
  lemma InOrder(lists: seq<seq<Volume>>, r: nat, x: nat, r': nat, x': nat)
    requires x <= |lists| && x' <= |lists| && |Taken(lists, r, x)| < |Taken(lists, r', x')|
    ensures r < r' || (r == r' && x < x')
  {
    hide Row, Rows;
    if r' < r {
      RowGrows(lists, r', x', |lists|);
      NextRows(lists, r');
      RowsGrow(lists, r' + 1, r);
    } else if r == r' && x' <= x {
      RowGrows(lists, r, x', x);
    }
  }

  /** The round and the position of the node of one disk of the preference order. */
  lemma PlacedAt(hash: Hash, pl: Planner, bucket: string, key: string, i: nat) returns (r: nat, x: nat)
    requires i < |Preference(hash, pl, bucket, key)|
    ensures var nodes := OrderedNodes(hash, KeyMaterial(pl, bucket, key), pl.disks);
            var pref := Preference(hash, pl, bucket, key);
            && x < |nodes| && pref[i].nodeId == nodes[x] && |DisksOn(pref[..i], nodes[x])| == r
            && pref[..i] == Taken(Lists(hash, KeyMaterial(pl, bucket, key), pl.disks, nodes), r, x)
  {
    hide StableOrder, KeyMaterial, NodesOf, DisksOf, Row, Rows, OrderedNodes, Load, ByNode;
    var material, pref := KeyMaterial(pl, bucket, key), Preference(hash, pl, bucket, key);
    var nodes := OrderedNodes(hash, material, pl.disks);
    var lists := Lists(hash, material, pl.disks, nodes);
    r, x := Coordinates(lists, LongestList(lists), i);
    ListsByNode(hash, material, pl.disks);
    NodeOfList(lists, nodes, x, r);
    TakenLoad(lists, nodes, r, x, x);
    LoadIsSize(pref[..i], nodes[x]);
  }

  lemma NodeOfList(lists: seq<seq<Volume>>, nodes: seq<string>, x: nat, r: nat)
    requires ByNode(lists, nodes) && x < |lists| && r < |lists[x]|
    ensures lists[x][r].nodeId == nodes[x]
  {
    assert lists[x][r] in lists[x];
  }

  /** Round robin: every shard is placed in a later round than the shards before it, or in the same
      round on another node, nodes in the order of their hashes. A node without a shard is behind
      all of those with one. */
  lemma PlanOrdersNodes(hash: Hash, pl: Planner, bucket: string, key: string, data: nat, parity: nat)
    requires PlanOf(hash, pl, bucket, key, data, parity).Ok?
    ensures var shards := PlanOf(hash, pl, bucket, key, data, parity).value.shards;
            && (forall i, j :: 0 <= i < j < |shards| ==> Precedes(hash, pl, bucket, key, shards, i, j))
            && (forall i, node :: 0 <= i < |shards| && node in NodeSet(pl.disks) && ShardsOn(shards, node) == {} ==>
                  NodeHash(hash, pl, bucket, key, shards[i].nodeId) <= NodeHash(hash, pl, bucket, key, node))
  {
    hide Preference, PlanOf, NodesOf, OrderedNodes, StableOrder, Decimal, NodeHash, Precedes;
    var chosen := PlanShards(hash, pl, bucket, key, data, parity);
    var shards := PlanOf(hash, pl, bucket, key, data, parity).value.shards;
    var material := KeyMaterial(pl, bucket, key);
    var nodes := OrderedNodes(hash, material, pl.disks);
    forall i, j | 0 <= i < j < |shards|
      ensures Precedes(hash, pl, bucket, key, shards, i, j)
    {
      ShardsPrecede(hash, pl, bucket, key, shards, i, j);
    }
    forall i, node | 0 <= i < |shards| && node in NodeSet(pl.disks) && ShardsOn(shards, node) == {}
      ensures NodeHash(hash, pl, bucket, key, shards[i].nodeId) <= NodeHash(hash, pl, bucket, key, node)
    {
      NodesOfSet(pl.disks);
      var x := NodePosition(hash, material, pl.disks, node);
      FirstRound(hash, pl, bucket, key, x);
      assert forall z: nat :: z < |shards| && shards[z].nodeId == node ==> z in ShardsOn(shards, node);
      assert x >= |shards|;
      FirstRound(hash, pl, bucket, key, i);
      NodesInOrder(hash, pl, bucket, key, i, x);
    }
  }

  ghost predicate Precedes(hash: Hash, pl: Planner, bucket: string, key: string, shards: seq<Shard>, i: nat, j: nat)
    requires i < |shards| && j < |shards|
  {
    var a, b := shards[i].nodeId, shards[j].nodeId;
    || Round(shards, i) < Round(shards, j)
    || (&& Round(shards, i) == Round(shards, j) && a != b
        && NodeHash(hash, pl, bucket, key, a) <= NodeHash(hash, pl, bucket, key, b))
  }

  lemma ShardsPrecede(hash: Hash, pl: Planner, bucket: string, key: string, shards: seq<Shard>, i: nat, j: nat)
    requires |shards| <= |Preference(hash, pl, bucket, key)|
    requires forall x :: 0 <= x < |shards| ==> DiskOf(shards[x]) == Preference(hash, pl, bucket, key)[x]
    requires i < j < |shards|
    ensures Precedes(hash, pl, bucket, key, shards, i, j)
  {
    hide Preference, NodesOf, OrderedNodes, KeyMaterial, Taken, Lists, NodeHash;
    var material, pref := KeyMaterial(pl, bucket, key), Preference(hash, pl, bucket, key);
    var nodes := OrderedNodes(hash, material, pl.disks);
    var r, x := PlacedAt(hash, pl, bucket, key, i);
    var r', x' := PlacedAt(hash, pl, bucket, key, j);
    assert forall z :: 0 <= z < |shards| ==> shards[z].nodeId == DiskOf(shards[z]).nodeId == pref[z].nodeId;
    assert ShardsOn(shards[..i], nodes[x]) == DisksOn(pref[..i], nodes[x]);
    assert ShardsOn(shards[..j], nodes[x']) == DisksOn(pref[..j], nodes[x']);
    InOrder(Lists(hash, material, pl.disks, nodes), r, x, r', x');
    OrderedNodesOk(hash, material, pl.disks);
    if r == r' {
      NodesInOrder(hash, pl, bucket, key, x, x');
    }
  }

  lemma NodesInOrder(hash: Hash, pl: Planner, bucket: string, key: string, i: nat, j: nat)
    requires i <= j < |OrderedNodes(hash, KeyMaterial(pl, bucket, key), pl.disks)|
    ensures var nodes := OrderedNodes(hash, KeyMaterial(pl, bucket, key), pl.disks);
            NodeHash(hash, pl, bucket, key, nodes[i]) <= NodeHash(hash, pl, bucket, key, nodes[j])
  {
    hide Decimal, NodesOf, StableOrder;
    OrderIsSorted(NodesOf(pl.disks), NodeKey(hash, KeyMaterial(pl, bucket, key)));
  }

  ghost predicate Unused(shards: seq<Shard>, v: Volume)
  {
    forall j :: 0 <= j < |shards| ==> DiskOf(shards[j]) != v
  }

  /** The shards of a node are on its disks in the order of their hashes, and a disk of the node
      without a shard is behind all of those with one. */
  lemma PlanOrdersDisks(hash: Hash, pl: Planner, bucket: string, key: string, data: nat, parity: nat)
    requires PlanOf(hash, pl, bucket, key, data, parity).Ok?
    ensures var shards := PlanOf(hash, pl, bucket, key, data, parity).value.shards;
            var h := (id: string) => DiskHash(hash, pl, bucket, key, id);
            && (forall i, j :: 0 <= i < j < |shards| && shards[i].nodeId == shards[j].nodeId ==>
                  h(shards[i].volumeId) <= h(shards[j].volumeId))
            && (forall i, v :: 0 <= i < |shards| && v in pl.disks && v.nodeId == shards[i].nodeId && Unused(shards, v)
                  ==> h(shards[i].volumeId) <= h(v.volumeId))
  {
    hide Preference, PlanOf, Decimal;
    var chosen := PlanShards(hash, pl, bucket, key, data, parity);
    var shards := PlanOf(hash, pl, bucket, key, data, parity).value.shards;
    var h := (id: string) => DiskHash(hash, pl, bucket, key, id);
    forall i | 0 <= i < |shards|
      ensures forall j :: i < j < |shards| && shards[i].nodeId == shards[j].nodeId ==>
                h(shards[i].volumeId) <= h(shards[j].volumeId)
      ensures forall v :: v in pl.disks && v.nodeId == shards[i].nodeId && v !in chosen ==>
                h(shards[i].volumeId) <= h(v.volumeId)
    {
      NodeFollowsHashes(hash, pl, bucket, key, data + parity, i);
    }
  }
}
