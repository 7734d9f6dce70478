/** Placing shards on disks: nodes and each node's disks in hash order, then round robin. */
module Placement {
  import opened ByteCodec

  datatype Volume = Volume(backendIndex: nat, nodeId: string, volumeId: string)

  datatype PlanError = NoDataShards | TooFewDisks(needed: nat, available: nat) | Unplaced

  /** SHA-256 in hex, compared as text, orders like the 256-bit number it writes. */
  type Hash = string -> nat

  // Stable sort by key

  predicate SortedBy<T>(items: seq<T>, key: T -> nat)
  {
    forall i, j :: 0 <= i < j < |items| ==> key(items[i]) <= key(items[j])
  }

  /** Insert behind everything whose key is not larger. */
  function Insert<T>(items: seq<T>, x: T, key: T -> nat): (r: seq<T>)
  {
    if items == [] then [x]
    else if key(items[|items| - 1]) <= key(x) then items + [x]
    else Insert(items[..|items| - 1], x, key) + [items[|items| - 1]]
  }

  function StableOrder<T>(items: seq<T>, key: T -> nat): (r: seq<T>)
  {
    if items == [] then [] else Insert(StableOrder(items[..|items| - 1], key), items[|items| - 1], key)
  }

  lemma {:induction false} InsertBag<T>(items: seq<T>, x: T, key: T -> nat)
    ensures multiset(Insert(items, x, key)) == multiset(items) + multiset{x}
  {
    if items != [] && key(items[|items| - 1]) > key(x) {
      var front, last := items[..|items| - 1], items[|items| - 1];
      InsertBag(front, x, key);
      assert items == front + [last];
      BagSwap(multiset(front), x, last);
    }
  }

  lemma BagSwap<T>(m: multiset<T>, x: T, y: T)
    ensures m + multiset{x} + multiset{y} == m + multiset{y} + multiset{x}
  {
  }

  lemma {:induction false} InsertMembers<T>(items: seq<T>, x: T, key: T -> nat)
    ensures forall y :: y in Insert(items, x, key) ==> y in items || y == x
  {
    if items != [] {
      InsertMembers(items[..|items| - 1], x, key);
    }
  }

  lemma {:induction false} InsertSorts<T>(items: seq<T>, x: T, key: T -> nat)
    requires SortedBy(items, key)
    ensures SortedBy(Insert(items, x, key), key)
  {
    if items != [] && key(items[|items| - 1]) > key(x) {
      var front, last := items[..|items| - 1], items[|items| - 1];
      InsertSorts(front, x, key);
      InsertMembers(front, x, key);
      var r := Insert(front, x, key);
      forall i | 0 <= i < |r|
        ensures key(r[i]) <= key(last)
      {
        assert r[i] in r;
      }
    }
  }

  /** The items with one key, in their order. */
  function WithKey<T>(items: seq<T>, key: T -> nat, v: nat): (r: seq<T>)
  {
    if items == [] then []
    else WithKey(items[..|items| - 1], key, v) + if key(items[|items| - 1]) == v then [items[|items| - 1]] else []
  }

  lemma {:induction false} InsertIsStable<T>(items: seq<T>, x: T, key: T -> nat, v: nat)
    ensures WithKey(Insert(items, x, key), key, v) == WithKey(items, key, v) + if key(x) == v then [x] else []
  {
    if items != [] && key(items[|items| - 1]) > key(x) {
      var front, last := items[..|items| - 1], items[|items| - 1];
      InsertIsStable(front, x, key, v);
      assert (Insert(front, x, key) + [last])[..|Insert(front, x, key)|] == Insert(front, x, key);
    } else {
      assert (items + [x])[..|items|] == items;
    }
  }

  /** A stable sort: a sorted permutation, in which items of equal keys keep their order. */
  lemma {:induction false} OrderIsSorted<T>(items: seq<T>, key: T -> nat)
    ensures multiset(StableOrder(items, key)) == multiset(items)
    ensures SortedBy(StableOrder(items, key), key)
    ensures |StableOrder(items, key)| == |items|
    ensures forall v: nat :: WithKey(StableOrder(items, key), key, v) == WithKey(items, key, v)
  {
    if items != [] {
      var front, last := items[..|items| - 1], items[|items| - 1];
      assert items == front + [last];
      OrderIsSorted(front, key);
      InsertBag(StableOrder(front, key), last, key);
      InsertSorts(StableOrder(front, key), last, key);
      forall v: nat
        ensures WithKey(StableOrder(items, key), key, v) == WithKey(items, key, v)
      {
        InsertIsStable(StableOrder(front, key), last, key, v);
      }
    }
    assert |multiset(StableOrder(items, key))| == |multiset(items)|;
  }

  /** With distinct keys there is only one sorted order of a bag. */
  lemma {:induction false} SortedUnique<T(!new)>(a: seq<T>, b: seq<T>, key: T -> nat)
    requires multiset(a) == multiset(b) && SortedBy(a, key) && SortedBy(b, key)
    requires Separates(multiset(a), key)
    ensures a == b
  {
    hide SortedBy, Separates;
    assert |multiset(a)| == |multiset(b)|;
    if a != [] {
      var n := |a| - 1;
      SameLast(a, b, key);
      Shorter(a, key);
      Shorter(b, key);
      SortedUnique(a[..n], b[..n], key);
      InitLast(a, b);
    }
  }

  lemma InitLast<T>(a: seq<T>, b: seq<T>)
    requires |a| == |b| > 0 && a[..|a| - 1] == b[..|b| - 1] && a[|a| - 1] == b[|b| - 1]
    ensures a == b
  {
    assert a == a[..|a| - 1] + [a[|a| - 1]] && b == b[..|b| - 1] + [b[|b| - 1]];
  }

  /** The key tells the items apart. */
  ghost predicate Separates<T(!new)>(items: multiset<T>, key: T -> nat)
  {
    forall x, y :: x in items && y in items && key(x) == key(y) ==> x == y
  }

  lemma SameLast<T(!new)>(a: seq<T>, b: seq<T>, key: T -> nat)
    requires multiset(a) == multiset(b) && SortedBy(a, key) && SortedBy(b, key) && |a| == |b| > 0
    requires Separates(multiset(a), key)
    ensures a[|a| - 1] == b[|b| - 1]
  {
    var x, y := a[|a| - 1], b[|b| - 1];
    assert x in multiset(a) && y in multiset(b);
    LastIsLargest(a, y, key);
    LastIsLargest(b, x, key);
  }

  lemma Shorter<T(!new)>(a: seq<T>, key: T -> nat)
    requires SortedBy(a, key) && a != [] && Separates(multiset(a), key)
    ensures var n := |a| - 1;
            && SortedBy(a[..n], key)
            && multiset(a[..n]) == multiset(a) - multiset{a[n]}
            && Separates(multiset(a[..n]), key)
  {
    hide Separates;
    DropLast(a);
    SeparatesLess(multiset(a), a[|a| - 1], key);
  }

  lemma DropLast<T>(a: seq<T>)
    requires a != []
    ensures multiset(a[..|a| - 1]) == multiset(a) - multiset{a[|a| - 1]}
  {
    var n := |a| - 1;
    assert a == a[..n] + [a[n]];
  }

  lemma SeparatesLess<T(!new)>(m: multiset<T>, x: T, key: T -> nat)
    requires Separates(m, key)
    ensures Separates(m - multiset{x}, key)
  {
    assert forall y :: y in m - multiset{x} ==> y in m;
  }

  lemma LastIsLargest<T>(s: seq<T>, x: T, key: T -> nat)
    requires SortedBy(s, key) && s != [] && x in multiset(s)
    ensures key(x) <= key(s[|s| - 1])
  {
    assert x in s;
    var i :| 0 <= i < |s| && s[i] == x;
  }

  /** Sorting forgets the order of the input, when the key tells the items apart. */
  lemma OrderForgets<T(!new)>(a: seq<T>, b: seq<T>, key: T -> nat)
    requires multiset(a) == multiset(b) && Separates(multiset(a), key)
    ensures StableOrder(a, key) == StableOrder(b, key)
  {
    hide Separates, SortedBy;
    OrderIsSorted(a, key);
    OrderIsSorted(b, key);
    SortedUnique(StableOrder(a, key), StableOrder(b, key), key);
  }

  // Grouping

  /** Text order, which the map of nodes iterates in. */
  predicate Before(a: string, b: string)
  {
    if a == [] then b != []
    else if b == [] then false
    else if a[0] == b[0] then Before(a[1..], b[1..])
    else a[0] < b[0]
  }

  function InsertNode(nodes: seq<string>, id: string): (r: seq<string>)
  {
    if nodes == [] then [id]
    else if nodes[0] == id then nodes
    else if Before(id, nodes[0]) then [id] + nodes
    else [nodes[0]] + InsertNode(nodes[1..], id)
  }

  /** The keys of the map from node to its disks. */
  function NodesOf(disks: seq<Volume>): (r: seq<string>)
  {
    if disks == [] then [] else InsertNode(NodesOf(disks[..|disks| - 1]), disks[|disks| - 1].nodeId)
  }

  function DisksOf(disks: seq<Volume>, node: string): (r: seq<Volume>)
  {
    if disks == [] then []
    else
      var front, d := DisksOf(disks[..|disks| - 1], node), disks[|disks| - 1];
      if d.nodeId == node then front + [d] else front
  }

  ghost predicate Distinct<T(!new)>(s: seq<T>)
  {
    forall i, j :: 0 <= i < j < |s| ==> s[i] != s[j]
  }

  lemma {:induction false} InsertNodeSet(nodes: seq<string>, id: string)
    ensures forall x :: x in InsertNode(nodes, id) <==> x in nodes || x == id
  {
    if nodes != [] {
      InsertNodeSet(nodes[1..], id);
      assert forall x :: x in nodes <==> x == nodes[0] || x in nodes[1..];
    }
  }

  lemma {:induction false} NodesOfSet(disks: seq<Volume>)
    ensures forall x :: x in NodesOf(disks) <==> exists d :: d in disks && d.nodeId == x
  {
    if disks != [] {
      var front, last := disks[..|disks| - 1], disks[|disks| - 1];
      assert disks == front + [last];
      NodesOfSet(front);
      InsertNodeSet(NodesOf(front), last.nodeId);
    }
  }

  // Text order is a strict total order, so no node is listed twice.

  lemma {:induction false} BeforeTrans(a: string, b: string, c: string)
    requires Before(a, b) && Before(b, c)
    ensures Before(a, c)
  {
    if a != [] && a[0] == b[0] && b[0] == c[0] {
      BeforeTrans(a[1..], b[1..], c[1..]);
    }
  }

  lemma {:induction false} BeforeIrreflexive(a: string)
    ensures !Before(a, a)
  {
    if a != [] {
      BeforeIrreflexive(a[1..]);
    }
  }

  lemma {:induction false} BeforeTotal(a: string, b: string)
    requires a != b
    ensures Before(a, b) || Before(b, a)
  {
    if a != [] && b != [] && a[0] == b[0] {
      assert a == [a[0]] + a[1..] && b == [b[0]] + b[1..];
      BeforeTotal(a[1..], b[1..]);
    }
  }

  ghost predicate Ascending(s: seq<string>)
  {
    forall i, j :: 0 <= i < j < |s| ==> Before(s[i], s[j])
  }

  lemma {:induction false} InsertNodeAscends(nodes: seq<string>, id: string)
    requires Ascending(nodes)
    ensures Ascending(InsertNode(nodes, id))
  {
    if nodes == [] || nodes[0] == id {
    } else if Before(id, nodes[0]) {
      forall j | 0 <= j < |nodes|
        ensures Before(id, nodes[j])
      {
        if j > 0 { BeforeTrans(id, nodes[0], nodes[j]); }
      }
    } else {
      var rest := nodes[1..];
      BeforeTotal(id, nodes[0]);
      InsertNodeAscends(rest, id);
      InsertNodeSet(rest, id);
      var r := InsertNode(rest, id);
      forall j | 0 <= j < |r|
        ensures Before(nodes[0], r[j])
      {
        assert r[j] in r;
        if r[j] != id {
          var i :| 0 <= i < |rest| && rest[i] == r[j];
          assert nodes[i + 1] == r[j];
        }
      }
    }
  }

  lemma {:induction false} NodesAreDistinct(disks: seq<Volume>)
    ensures Ascending(NodesOf(disks)) && Distinct(NodesOf(disks))
  {
    if disks != [] {
      var front := disks[..|disks| - 1];
      NodesAreDistinct(front);
      InsertNodeAscends(NodesOf(front), disks[|disks| - 1].nodeId);
    }
    var ns := NodesOf(disks);
    forall i, j | 0 <= i < j < |ns|
      ensures ns[i] != ns[j]
    {
      BeforeIrreflexive(ns[i]);
    }
  }

  lemma {:induction false} DisksOfBag(disks: seq<Volume>, node: string, v: Volume)
    ensures multiset(DisksOf(disks, node))[v] == if v.nodeId == node then multiset(disks)[v] else 0
  {
    if disks != [] {
      var front, last := disks[..|disks| - 1], disks[|disks| - 1];
      assert disks == front + [last];
      DisksOfBag(front, node, v);
    }
  }

  // Round robin

  /** The disks taken in round `r` from the first `n` nodes. */
  function Row(lists: seq<seq<Volume>>, r: nat, n: nat): (row: seq<Volume>)
    requires n <= |lists|
  {
    if n == 0 then []
    else Row(lists, r, n - 1) + if r < |lists[n - 1]| then [lists[n - 1][r]] else []
  }

  /** The disks taken in the first `rounds` rounds. */
  function Rows(lists: seq<seq<Volume>>, rounds: nat): (rows: seq<Volume>)
  {
    if rounds == 0 then [] else Rows(lists, rounds - 1) + Row(lists, rounds - 1, |lists|)
  }

  /** What has been taken when round `r` has reached node `n`. */
  function Taken(lists: seq<seq<Volume>>, r: nat, n: nat): (t: seq<Volume>)
    requires n <= |lists|
  {
    Rows(lists, r) + Row(lists, r, n)
  }

  function LongestList(lists: seq<seq<Volume>>): (m: nat)
    ensures forall i :: 0 <= i < |lists| ==> |lists[i]| <= m
    ensures m == 0 || exists i :: 0 <= i < |lists| && |lists[i]| == m
  {
    if lists == [] then 0
    else
      var k := |lists| - 1;
      var m, n := LongestList(lists[..k]), |lists[k]|;
      assert forall i :: 0 <= i < k ==> lists[..k][i] == lists[i];
      if m > n then m else n
  }

  /** All disks in round-robin order. */
  function AllTaken(lists: seq<seq<Volume>>): (r: seq<Volume>)
  {
    Rows(lists, LongestList(lists))
  }

  lemma {:induction false} RowBounds(lists: seq<seq<Volume>>, r: nat, n: nat)
    requires n <= |lists|
    ensures Row(lists, r, n) == [] <==> forall i :: 0 <= i < n ==> |lists[i]| <= r
  {
    if n > 0 {
      RowBounds(lists, r, n - 1);
    }
  }

  lemma {:induction false} RowGrows(lists: seq<seq<Volume>>, r: nat, n: nat, m: nat)
    requires n <= m <= |lists|
    ensures Row(lists, r, n) <= Row(lists, r, m)
    decreases m - n
  {
    if n < m {
      RowGrows(lists, r, n + 1, m);
    }
  }

  lemma {:induction false} RowsGrow(lists: seq<seq<Volume>>, r: nat, s: nat)
    requires r <= s
    ensures Rows(lists, r) <= Rows(lists, s)
    ensures r >= LongestList(lists) ==> Rows(lists, r) == Rows(lists, s)
    decreases s - r
  {
    if r < s {
      RowBounds(lists, r, |lists|);
      RowsGrow(lists, r + 1, s);
    }
  }

  /** Whatever has been taken at some point is a prefix of all that would be taken. */
  lemma TakenIsPrefix(lists: seq<seq<Volume>>, r: nat, n: nat)
    requires n <= |lists|
    ensures Taken(lists, r, n) <= AllTaken(lists)
  {
    hide Rows, Row, LongestList;
    var m := LongestList(lists);
    RowGrows(lists, r, n, |lists|);
    PrefixBehind(Rows(lists, r), Row(lists, r, n), Row(lists, r, |lists|));
    NextRows(lists, r);
    if r < m {
      RowsGrow(lists, r + 1, m);
    } else {
      RowsGrow(lists, m, r + 1);
    }
    PrefixTrans(Taken(lists, r, n), Rows(lists, r + 1), AllTaken(lists));
  }

  lemma NextRows(lists: seq<seq<Volume>>, r: nat)
    ensures Rows(lists, r + 1) == Rows(lists, r) + Row(lists, r, |lists|)
  {
  }

  lemma PrefixBehind<T>(a: seq<T>, b: seq<T>, c: seq<T>)
    requires b <= c
    ensures a + b <= a + c
  {
  }

  lemma PrefixTrans<T>(a: seq<T>, b: seq<T>, c: seq<T>)
    requires a <= b && (b <= c)
    ensures a <= c
  {
  }

  /** One round: take the next disk of every node that still has one, until enough. */
  method OneRound(lists: seq<seq<Volume>>, round: nat, total: nat, taken: seq<Volume>)
    returns (chosen: seq<Volume>, placed: bool, ghost n: nat)
    requires |taken| < total && taken == Rows(lists, round)
    ensures n <= |lists| && chosen == Taken(lists, round, n) && |chosen| <= total
    ensures |chosen| < total ==> n == |lists|
    ensures placed <==> |chosen| > |taken|
  {
    chosen, placed, n := taken, false, 0;
    assert Rows(lists, round) + [] == taken;
    for i := 0 to |lists|
      invariant n == i && |chosen| < total && chosen == Taken(lists, round, i)
      invariant placed <==> |chosen| > |taken|
    {
      var more := if round < |lists[i]| then [lists[i][round]] else [];
      Assoc(Rows(lists, round), Row(lists, round, i), more);
      n := i + 1;
      if round < |lists[i]| {
        chosen := chosen + [lists[i][round]];
        placed := true;
        if |chosen| == total { return; }
      } else {
        assert chosen + [] == chosen;
      }
    }
  }

  /** The nested loops of the planner: round after round until enough disks are chosen or a
      round places nothing. */
  method RoundRobin(lists: seq<seq<Volume>>, total: nat) returns (chosen: seq<Volume>)
    ensures chosen == AllTaken(lists)[..Min(total, |AllTaken(lists)|)]
  {
    chosen := [];
    var round: nat := 0;
    ghost var n: nat := 0;
    while |chosen| < total
      invariant |chosen| <= total
      invariant |chosen| < total ==> chosen == Rows(lists, round)
      invariant chosen <= AllTaken(lists)
      decreases total - |chosen|
    {
      var placed;
      chosen, placed, n := OneRound(lists, round, total, chosen);
      TakenIsPrefix(lists, round, n);
      if !placed {
        RowBounds(lists, round, |lists|);
        RowsGrow(lists, LongestList(lists), round);
        break;
      }
      round := round + 1;
    }
  }

  // What is taken, and how evenly

  /** How often a list holds a disk. */
  function Occurs(s: seq<Volume>, v: Volume): (c: nat)
  {
    if s == [] then 0 else Occurs(s[..|s| - 1], v) + if s[|s| - 1] == v then 1 else 0
  }

  lemma {:induction false} OccursIsCount(s: seq<Volume>, v: Volume)
    ensures Occurs(s, v) == multiset(s)[v]
  {
    if s != [] {
      var n := |s| - 1;
      OccursIsCount(s[..n], v);
      assert s == s[..n] + [s[n]];
    }
  }

  lemma {:induction false} OccursSum(a: seq<Volume>, b: seq<Volume>, v: Volume)
    ensures Occurs(a + b, v) == Occurs(a, v) + Occurs(b, v)
  {
    if b == [] {
      assert a + b == a;
    } else {
      var n := |b| - 1;
      assert (a + b)[..|a + b| - 1] == a + b[..n];
      OccursSum(a, b[..n], v);
    }
  }

  /** How often a disk is among the first `r` disks of each of the first `n` nodes. */
  ghost function Copies(lists: seq<seq<Volume>>, r: nat, n: nat, v: Volume): (c: nat)
    requires n <= |lists|
  {
    if n == 0 then 0
    else Copies(lists, r, n - 1, v) + Occurs(lists[n - 1][..Min(r, |lists[n - 1]|)], v)
  }

  lemma HeadOccurs(l: seq<Volume>, r: nat, v: Volume)
    ensures Occurs(l[..Min(r + 1, |l|)], v)
            == Occurs(l[..Min(r, |l|)], v) + Occurs(if r < |l| then [l[r]] else [], v)
  {
    if r < |l| {
      assert l[..r + 1] == l[..r] + [l[r]];
      OccursSum(l[..r], [l[r]], v);
    }
  }

  lemma {:induction false} CopiesStep(lists: seq<seq<Volume>>, r: nat, n: nat, v: Volume)
    requires n <= |lists|
    ensures Copies(lists, r + 1, n, v) == Copies(lists, r, n, v) + Occurs(Row(lists, r, n), v)
  {
    hide Occurs;
    if n == 0 {
      OccursNone(v);
    } else {
      var l := lists[n - 1];
      CopiesStep(lists, r, n - 1, v);
      HeadOccurs(l, r, v);
      OccursSum(Row(lists, r, n - 1), if r < |l| then [l[r]] else [], v);
    }
  }

  lemma {:induction false} RowsCopies(lists: seq<seq<Volume>>, r: nat, v: Volume)
    ensures Occurs(Rows(lists, r), v) == Copies(lists, r, |lists|, v)
  {
    hide Row, Copies, Occurs;
    if r == 0 {
      NoCopies(lists, |lists|, v);
      OccursNone(v);
    } else {
      RowsCopies(lists, r - 1, v);
      CopiesStep(lists, r - 1, |lists|, v);
      OccursSum(Rows(lists, r - 1), Row(lists, r - 1, |lists|), v);
    }
  }

  lemma OccursNone(v: Volume)
    ensures Occurs([], v) == 0
  {
  }

  lemma {:induction false} NoCopies(lists: seq<seq<Volume>>, n: nat, v: Volume)
    requires n <= |lists|
    ensures Copies(lists, 0, n, v) == 0
  {
    if n > 0 {
      NoCopies(lists, n - 1, v);
    }
  }

  /** Number of chosen disks on a node. */
  function Load(s: seq<Volume>, node: string): (c: nat)
  {
    if s == [] then 0
    else Load(s[..|s| - 1], node) + if s[|s| - 1].nodeId == node then 1 else 0
  }

  lemma {:induction false} LoadAppend(a: seq<Volume>, b: seq<Volume>, node: string)
    ensures Load(a + b, node) == Load(a, node) + Load(b, node)
  {
    if b == [] {
      assert a + b == a;
    } else {
      var n := |b| - 1;
      assert (a + b)[..|a + b| - 1] == a + b[..n];
      LoadAppend(a, b[..n], node);
    }
  }

  /** List `i` holds disks of node `i`, and no node has two lists. */
  ghost predicate ByNode(lists: seq<seq<Volume>>, nodes: seq<string>)
  {
    && |lists| == |nodes| && Distinct(nodes)
    && forall i, v :: 0 <= i < |lists| && v in lists[i] ==> v.nodeId == nodes[i]
  }

  lemma {:induction false} RowLoad(lists: seq<seq<Volume>>, nodes: seq<string>, r: nat, n: nat, i: nat)
    requires ByNode(lists, nodes) && n <= |lists| && i < |nodes|
    ensures Load(Row(lists, r, n), nodes[i]) == if i < n && r < |lists[i]| then 1 else 0
  {
    if n > 0 {
      var k := n - 1;
      RowLoad(lists, nodes, r, k, i);
      if r < |lists[k]| {
        var v := lists[k][r];
        assert v in lists[k];
        assert v.nodeId == nodes[i] <==> i == k;
        assert (Row(lists, r, k) + [v])[..|Row(lists, r, k)|] == Row(lists, r, k);
      } else {
        assert Row(lists, r, k) + [] == Row(lists, r, k);
      }
    }
  }

  lemma {:induction false} RowsLoad(lists: seq<seq<Volume>>, nodes: seq<string>, r: nat, i: nat)
    requires ByNode(lists, nodes) && i < |nodes|
    ensures Load(Rows(lists, r), nodes[i]) == Min(r, |lists[i]|)
  {
    if r > 0 {
      RowsLoad(lists, nodes, r - 1, i);
      RowLoad(lists, nodes, r - 1, |lists|, i);
      LoadAppend(Rows(lists, r - 1), Row(lists, r - 1, |lists|), nodes[i]);
    }
  }

  /** After round `r` up to node `n`, each node has given `r` or `r + 1` disks, or all it has. */
  lemma TakenLoad(lists: seq<seq<Volume>>, nodes: seq<string>, r: nat, n: nat, i: nat)
    requires ByNode(lists, nodes) && n <= |lists| && i < |nodes|
    ensures Load(Taken(lists, r, n), nodes[i]) == Min(if i < n then r + 1 else r, |lists[i]|)
  {
    hide ByNode;
    RowsLoad(lists, nodes, r, i);
    RowLoad(lists, nodes, r, n, i);
    LoadAppend(Rows(lists, r), Row(lists, r, n), nodes[i]);
  }

  /** Every prefix of the round-robin order ends inside some round. */
  lemma {:induction false} PrefixIsTaken(lists: seq<seq<Volume>>, rounds: nat, t: nat) returns (r: nat, n: nat)
    requires t <= |Rows(lists, rounds)|
    ensures n <= |lists| && Taken(lists, r, n) == Rows(lists, rounds)[..t]
  {
    if rounds == 0 {
      r, n := 0, 0;
    } else {
      var front, row := Rows(lists, rounds - 1), Row(lists, rounds - 1, |lists|);
      if t <= |front| {
        r, n := PrefixIsTaken(lists, rounds - 1, t);
        TakeConcat(front, row, t);
      } else {
        r := rounds - 1;
        n := RowPrefix(lists, r, |lists|, t - |front|);
        TakeConcat(front, row, t);
      }
    }
  }

  lemma {:induction false} RowPrefix(lists: seq<seq<Volume>>, r: nat, m: nat, t: nat) returns (n: nat)
    requires m <= |lists| && t <= |Row(lists, r, m)|
    ensures n <= m && Row(lists, r, n) == Row(lists, r, m)[..t]
  {
    if t == |Row(lists, r, m)| {
      n := m;
    } else {
      n := RowPrefix(lists, r, m - 1, t);
    }
  }

  // The planner

  datatype Planner = Planner(epochId: nat, clusterId: string, disks: seq<Volume>)

  datatype Shard = Shard(index: nat, backendIndex: nat, nodeId: string, volumeId: string)

  datatype PlanRecord = PlanRecord(epochId: nat, clusterId: string, data: nat, parity: nat, shards: seq<Shard>)

  function KeyMaterial(pl: Planner, bucket: string, key: string): (s: string)
  {
    Decimal(pl.epochId) + ":" + pl.clusterId + ":" + bucket + "/" + key
  }

  function NodeKey(hash: Hash, material: string): (k: string -> nat)
  {
    (id: string) => hash("node:" + material + ":" + id)
  }

  function DiskKey(hash: Hash, material: string): (k: Volume -> nat)
  {
    (v: Volume) => hash("disk:" + material + ":" + v.volumeId)
  }

  function OrderedNodes(hash: Hash, material: string, disks: seq<Volume>): (r: seq<string>)
  {
    StableOrder(NodesOf(disks), NodeKey(hash, material))
  }

  /** Each node's disks in hash order, nodes in hash order. */
  function Lists(hash: Hash, material: string, disks: seq<Volume>, nodes: seq<string>): (r: seq<seq<Volume>>)
    ensures |r| == |nodes|
    ensures forall i :: 0 <= i < |nodes| ==> r[i] == StableOrder(DisksOf(disks, nodes[i]), DiskKey(hash, material))
  {
    seq(|nodes|, i requires 0 <= i < |nodes| => StableOrder(DisksOf(disks, nodes[i]), DiskKey(hash, material)))
  }

  /** The order in which disks would be used for a key. */
  function Preference(hash: Hash, pl: Planner, bucket: string, key: string): (r: seq<Volume>)
  {
    var material := KeyMaterial(pl, bucket, key);
    AllTaken(Lists(hash, material, pl.disks, OrderedNodes(hash, material, pl.disks)))
  }

  function ShardsOf(chosen: seq<Volume>): (r: seq<Shard>)
    ensures |r| == |chosen|
    ensures forall i :: 0 <= i < |chosen| ==>
              r[i] == Shard(i, chosen[i].backendIndex, chosen[i].nodeId, chosen[i].volumeId)
  {
    seq(|chosen|, i requires 0 <= i < |chosen| =>
      Shard(i, chosen[i].backendIndex, chosen[i].nodeId, chosen[i].volumeId))
  }

  method Plan(hash: Hash, pl: Planner, bucket: string, key: string, data: nat, parity: nat)
    returns (r: Result<PlanRecord, PlanError>)
    ensures r == PlanOf(hash, pl, bucket, key, data, parity)
  {
    if data == 0 { return Err(NoDataShards); }
    var total := data + parity;
    if total > |pl.disks| { return Err(TooFewDisks(total, |pl.disks|)); }
    var material := KeyMaterial(pl, bucket, key);
    var nodes := OrderedNodes(hash, material, pl.disks);
    var chosen := RoundRobin(Lists(hash, material, pl.disks, nodes), total);
    PreferenceIsPermutation(hash, pl, bucket, key);
    if |chosen| != total { assert false; return Err(Unplaced); }
    r := Ok(PlanRecord(pl.epochId, pl.clusterId, data, parity, ShardsOf(chosen)));
  }

  /** Planning as a specification: the first `data + parity` disks of the preference order. */
  function PlanOf(hash: Hash, pl: Planner, bucket: string, key: string, data: nat, parity: nat)
    : (r: Result<PlanRecord, PlanError>)
  {
    if data == 0 then Err(NoDataShards)
    else if data + parity > |pl.disks| then Err(TooFewDisks(data + parity, |pl.disks|))
    else
      var pref := Preference(hash, pl, bucket, key);
      Ok(PlanRecord(pl.epochId, pl.clusterId, data, parity, ShardsOf(pref[..Min(data + parity, |pref|)])))
  }

  lemma OrderedNodesOk(hash: Hash, material: string, disks: seq<Volume>)
    ensures var nodes := OrderedNodes(hash, material, disks);
            && Distinct(nodes)
            && forall v :: v in disks ==> v.nodeId in nodes
  {
    var ns, nodes := NodesOf(disks), OrderedNodes(hash, material, disks);
    OrderIsSorted(ns, NodeKey(hash, material));
    NodesAreDistinct(disks);
    NodesOfSet(disks);
    DistinctBag(ns, nodes);
    forall v | v in disks
      ensures v.nodeId in nodes
    {
      assert v.nodeId in ns;
      assert v.nodeId in multiset(ns);
    }
  }

  lemma DistinctBag<T(!new)>(a: seq<T>, b: seq<T>)
    requires multiset(a) == multiset(b) && Distinct(a)
    ensures Distinct(b)
  {
    forall i, j | 0 <= i < j < |b|
      ensures b[i] != b[j]
    {
      if b[i] == b[j] {
        var x := b[i];
        assert b == b[..i] + [x] + b[i + 1..j] + [x] + b[j + 1..];
        assert multiset(b)[x] >= 2;
        DistinctOnce(a, x);
      }
    }
  }

  lemma {:induction false} DistinctOnce<T(!new)>(a: seq<T>, x: T)
    requires Distinct(a)
    ensures multiset(a)[x] <= 1
  {
    if a != [] {
      var n := |a| - 1;
      assert a == a[..n] + [a[n]];
      DistinctOnce(a[..n], x);
      if a[n] == x {
        assert x !in a[..n];
      }
    }
  }

  lemma ListsByNode(hash: Hash, material: string, disks: seq<Volume>)
    ensures var nodes := OrderedNodes(hash, material, disks);
            ByNode(Lists(hash, material, disks, nodes), nodes)
  {
    var nodes := OrderedNodes(hash, material, disks);
    OrderedNodesOk(hash, material, disks);
    var lists := Lists(hash, material, disks, nodes);
    forall i, v: Volume | 0 <= i < |lists| && v in lists[i]
      ensures v.nodeId == nodes[i]
    {
      OrderIsSorted(DisksOf(disks, nodes[i]), DiskKey(hash, material));
      assert v in multiset(lists[i]);
      DisksOfBag(disks, nodes[i], v);
    }
  }

  /** A disk is counted once, in the list of its own node. */
  lemma {:induction false} DiskCopies(hash: Hash, material: string, disks: seq<Volume>, nodes: seq<string>, r: nat,
                                      n: nat, v: Volume)
    requires Distinct(nodes) && n <= |nodes|
    requires forall i :: 0 <= i < |nodes| ==> |Lists(hash, material, disks, nodes)[i]| <= r
    ensures Copies(Lists(hash, material, disks, nodes), r, n, v)
            == if v.nodeId in nodes[..n] then multiset(disks)[v] else 0
  {
    hide Occurs, StableOrder, DisksOf;
    if n > 0 {
      var k := n - 1;
      DiskCopies(hash, material, disks, nodes, r, k, v);
      var l := Lists(hash, material, disks, nodes)[k];
      ListOccurs(hash, material, disks, nodes[k], v);
      assert l[..Min(r, |l|)] == l;
      assert nodes[..n] == nodes[..k] + [nodes[k]];
    }
  }

  lemma ListOccurs(hash: Hash, material: string, disks: seq<Volume>, node: string, v: Volume)
    ensures Occurs(StableOrder(DisksOf(disks, node), DiskKey(hash, material)), v)
            == if v.nodeId == node then multiset(disks)[v] else 0
  {
    hide StableOrder, DisksOf;
    OrderIsSorted(DisksOf(disks, node), DiskKey(hash, material));
    DisksOfBag(disks, node, v);
    OccursIsCount(StableOrder(DisksOf(disks, node), DiskKey(hash, material)), v);
  }

  /** The preference order is a permutation of the disks: it loses none and repeats none. */
  lemma PreferenceIsPermutation(hash: Hash, pl: Planner, bucket: string, key: string)
    ensures multiset(Preference(hash, pl, bucket, key)) == multiset(pl.disks)
    ensures |Preference(hash, pl, bucket, key)| == |pl.disks|
  {
    hide Rows, Copies, StableOrder, OrderedNodes, KeyMaterial;
    var material := KeyMaterial(pl, bucket, key);
    var nodes := OrderedNodes(hash, material, pl.disks);
    OrderedNodesOk(hash, material, pl.disks);
    var lists := Lists(hash, material, pl.disks, nodes);
    var m := LongestList(lists);
    assert nodes[..|nodes|] == nodes;
    forall v: Volume
      ensures multiset(Preference(hash, pl, bucket, key))[v] == multiset(pl.disks)[v]
    {
      RowsCopies(lists, m, v);
      OccursIsCount(Rows(lists, m), v);
      DiskCopies(hash, material, pl.disks, nodes, m, |nodes|, v);
      assert v !in pl.disks ==> multiset(pl.disks)[v] == 0;
    }
    assert multiset(Preference(hash, pl, bucket, key)) == multiset(pl.disks);
    assert |multiset(Preference(hash, pl, bucket, key))| == |multiset(pl.disks)|;
  }

  /** Planning succeeds exactly when there is a data shard and enough disks; it then uses
      `data + parity` disks, as often as they are listed and no more, and records what was asked
      for. Otherwise the error says which of the two is missing. */
  lemma PlanSucceedsIff(hash: Hash, pl: Planner, bucket: string, key: string, data: nat, parity: nat)
    ensures var r := PlanOf(hash, pl, bucket, key, data, parity);
            && (r.Ok? <==> data >= 1 && data + parity <= |pl.disks|)
            && (data == 0 ==> r == Err(NoDataShards))
            && (data >= 1 && r.Err? ==> r == Err(TooFewDisks(data + parity, |pl.disks|)))
            && (r.Ok? ==>
                  && r.value.data == data && r.value.parity == parity
                  && r.value.epochId == pl.epochId && r.value.clusterId == pl.clusterId
                  && exists chosen: seq<Volume> ::
                       IsChoice(pl, chosen, data + parity) && r.value.shards == ShardsOf(chosen))
  {
    hide Preference, ShardsOf;
    var pref := Preference(hash, pl, bucket, key);
    PreferenceIsPermutation(hash, pl, bucket, key);
    if data >= 1 && data + parity <= |pl.disks| {
      var chosen := pref[..data + parity];
      assert pref == chosen + pref[data + parity..];
      assert multiset(pref) == multiset(chosen) + multiset(pref[data + parity..]);
      assert IsChoice(pl, chosen, data + parity);
    }
  }

  ghost predicate IsChoice(pl: Planner, chosen: seq<Volume>, n: nat)
  {
    |chosen| == n && multiset(chosen) <= multiset(pl.disks)
  }

  /** With distinct disks no disk is preferred twice. */
  lemma PreferenceIsDistinct(hash: Hash, pl: Planner, bucket: string, key: string, n: nat)
    requires Distinct(pl.disks) && n <= |pl.disks|
    ensures n <= |Preference(hash, pl, bucket, key)| && Distinct(Preference(hash, pl, bucket, key)[..n])
  {
    hide Preference;
    PreferenceIsPermutation(hash, pl, bucket, key);
    DistinctBag(pl.disks, Preference(hash, pl, bucket, key));
  }

  /** A larger plan extends the shard list of a smaller one. */
  lemma PlanExtends(hash: Hash, pl: Planner, bucket: string, key: string, data: nat, parity: nat, data': nat,
                    parity': nat)
    requires PlanOf(hash, pl, bucket, key, data, parity).Ok? && PlanOf(hash, pl, bucket, key, data', parity').Ok?
    requires data + parity <= data' + parity'
    ensures PlanOf(hash, pl, bucket, key, data, parity).value.shards
            <= PlanOf(hash, pl, bucket, key, data', parity').value.shards
  {
    hide Preference;
    PreferenceIsPermutation(hash, pl, bucket, key);
    var a := PlanOf(hash, pl, bucket, key, data, parity).value.shards;
    var b := PlanOf(hash, pl, bucket, key, data', parity').value.shards;
    assert forall i :: 0 <= i < |a| ==> a[i] == b[i];
  }

  /** Number of disks a node has. */
  function DiskCount(pl: Planner, node: string): (n: nat)
  {
    |DisksOf(pl.disks, node)|
  }

  /** Balance of every front part of the preference order: one node has two disks more in it than
      another only if the other has no disk left. */
  lemma PrefixIsBalanced(hash: Hash, pl: Planner, bucket: string, key: string, n: nat, a: string, b: string)
    requires n <= |pl.disks|
    requires a in NodesOf(pl.disks) && b in NodesOf(pl.disks)
    ensures n <= |Preference(hash, pl, bucket, key)|
    ensures var chosen := Preference(hash, pl, bucket, key)[..n];
            Load(chosen, a) + 1 < Load(chosen, b) ==> Load(chosen, a) == DiskCount(pl, a)
  {
    hide Rows, StableOrder, KeyMaterial, Taken, Load, ByNode;
    PreferenceIsPermutation(hash, pl, bucket, key);
    var material := KeyMaterial(pl, bucket, key);
    var nodes := OrderedNodes(hash, material, pl.disks);
    var lists := Lists(hash, material, pl.disks, nodes);
    ListsByNode(hash, material, pl.disks);
    var r, k := PrefixIsTaken(lists, LongestList(lists), n);
    var i := NodePosition(hash, material, pl.disks, a);
    var j := NodePosition(hash, material, pl.disks, b);
    TakenLoad(lists, nodes, r, k, i);
    TakenLoad(lists, nodes, r, k, j);
    OrderIsSorted(DisksOf(pl.disks, a), DiskKey(hash, material));
  }

  lemma NodePosition(hash: Hash, material: string, disks: seq<Volume>, id: string) returns (i: nat)
    requires id in NodesOf(disks)
    ensures i < |OrderedNodes(hash, material, disks)| && OrderedNodes(hash, material, disks)[i] == id
  {
    OrderIsSorted(NodesOf(disks), NodeKey(hash, material));
    assert id in multiset(OrderedNodes(hash, material, disks));
    i :| 0 <= i < |OrderedNodes(hash, material, disks)| && OrderedNodes(hash, material, disks)[i] == id;
  }

  lemma {:induction false} FullRow(lists: seq<seq<Volume>>, n: nat)
    requires n <= |lists| && forall i :: 0 <= i < |lists| ==> lists[i] != []
    ensures |Row(lists, 0, n)| == n
  {
    if n > 0 {
      FullRow(lists, n - 1);
    }
  }

  lemma ListsNonempty(hash: Hash, material: string, disks: seq<Volume>, i: nat)
    requires i < |OrderedNodes(hash, material, disks)|
    ensures DisksOf(disks, OrderedNodes(hash, material, disks)[i]) != []
  {
    var nodes := OrderedNodes(hash, material, disks);
    OrderIsSorted(NodesOf(disks), NodeKey(hash, material));
    assert nodes[i] in multiset(nodes);
    NodesOfSet(disks);
    assert nodes[i] in NodesOf(disks);
    var d :| d in disks && d.nodeId == nodes[i];
    DisksOfBag(disks, nodes[i], d);
    assert d in multiset(disks);
  }

  /** The front part of the preference order as long as there are nodes has one disk a node. */
  lemma PrefixSpreads(hash: Hash, pl: Planner, bucket: string, key: string, n: nat, node: string)
    requires n <= |NodesOf(pl.disks)| && node in NodesOf(pl.disks)
    ensures n <= |Preference(hash, pl, bucket, key)|
    ensures Load(Preference(hash, pl, bucket, key)[..n], node) <= 1
  {
    hide StableOrder, KeyMaterial, Load, ByNode, NodesOf, DisksOf, Row, OrderedNodes;
    var material := KeyMaterial(pl, bucket, key);
    var nodes := OrderedNodes(hash, material, pl.disks);
    var lists := Lists(hash, material, pl.disks, nodes);
    assert |nodes| == |NodesOf(pl.disks)| by { OrderedCount(hash, material, pl.disks); }
    forall i | 0 <= i < |lists|
      ensures lists[i] != []
    {
      ListsNonempty(hash, material, pl.disks, i);
      OrderIsSorted(DisksOf(pl.disks, nodes[i]), DiskKey(hash, material));
    }
    FullRow(lists, |lists|);
    var k := RowPrefix(lists, 0, |lists|, n);
    assert Taken(lists, 0, k) == Row(lists, 0, k);
    TakenIsPrefix(lists, 0, k);
    assert Preference(hash, pl, bucket, key)[..n] == Taken(lists, 0, k);
    var i := NodePosition(hash, material, pl.disks, node);
    ListsByNode(hash, material, pl.disks);
    TakenLoad(lists, nodes, 0, k, i);
  }

  lemma OrderedCount(hash: Hash, material: string, disks: seq<Volume>)
    ensures |OrderedNodes(hash, material, disks)| == |NodesOf(disks)|
  {
    OrderIsSorted(NodesOf(disks), NodeKey(hash, material));
  }

  // Listing order

  /** No two nodes, and no two disks, of the list hash alike for this object. */
  ghost predicate CollisionFree(hash: Hash, material: string, disks: seq<Volume>)
  {
    && Separates(multiset(NodesOf(disks)), NodeKey(hash, material))
    && Separates(multiset(disks), DiskKey(hash, material))
  }

  lemma {:induction false} AscendingUnique(a: seq<string>, b: seq<string>)
    requires Ascending(a) && Ascending(b) && forall x :: x in a <==> x in b
    ensures a == b
  {
    if a == [] {
      HeadMember(b);
    } else {
      assert a[0] in a && a[0] in b;
      HeadsMeet(a, b);
      HeadsMeet(b, a);
      if a[0] != b[0] {
        BeforeTrans(a[0], b[0], a[0]);
        BeforeIrreflexive(a[0]);
        assert false;
      }
      forall x: string
        ensures x in a[1..] <==> x in b[1..]
      {
        TailMember(a, x);
        TailMember(b, x);
      }
      AscendingUnique(a[1..], b[1..]);
      assert a == [a[0]] + a[1..] && b == [b[0]] + b[1..];
    }
  }

  lemma HeadMember(b: seq<string>)
    ensures b != [] ==> b[0] in b
  {
  }

  lemma HeadsMeet(a: seq<string>, b: seq<string>)
    requires Ascending(b) && a != [] && b != [] && a[0] in b
    ensures a[0] == b[0] || Before(b[0], a[0])
  {
    var i :| 0 <= i < |b| && b[i] == a[0];
  }

  lemma TailMember(a: seq<string>, x: string)
    requires Ascending(a) && a != []
    ensures x in a[1..] <==> x in a && x != a[0]
  {
    assert a == [a[0]] + a[1..];
    if x in a[1..] {
      var i :| 0 <= i < |a| - 1 && a[1..][i] == x;
      assert Before(a[0], a[i + 1]);
      BeforeIrreflexive(x);
    }
  }

  lemma SameNodes(a: seq<Volume>, b: seq<Volume>)
    requires multiset(a) == multiset(b)
    ensures NodesOf(a) == NodesOf(b)
  {
    hide NodesOf;
    NodesAreDistinct(a);
    NodesAreDistinct(b);
    NodesOfSet(a);
    NodesOfSet(b);
    assert forall d :: d in a <==> d in multiset(a);
    assert forall d :: d in b <==> d in multiset(b);
    AscendingUnique(NodesOf(a), NodesOf(b));
  }

  lemma SameLists(hash: Hash, material: string, a: seq<Volume>, b: seq<Volume>, node: string)
    requires multiset(a) == multiset(b) && Separates(multiset(a), DiskKey(hash, material))
    ensures StableOrder(DisksOf(a, node), DiskKey(hash, material))
            == StableOrder(DisksOf(b, node), DiskKey(hash, material))
  {
    var x, y := DisksOf(a, node), DisksOf(b, node);
    forall v: Volume
      ensures multiset(x)[v] == multiset(y)[v]
      ensures v in multiset(x) ==> v in multiset(a)
    {
      DisksOfBag(a, node, v);
      DisksOfBag(b, node, v);
    }
    OrderForgets(x, y, DiskKey(hash, material));
  }

  /** A plan does not depend on the order in which the disks are listed, when hashes do not
      collide. */
  lemma PlanIgnoresListing(hash: Hash, pl: Planner, other: Planner, bucket: string, key: string, data: nat, parity: nat)
    requires other == pl.(disks := other.disks) && multiset(pl.disks) == multiset(other.disks)
    requires CollisionFree(hash, KeyMaterial(pl, bucket, key), pl.disks)
    ensures PlanOf(hash, pl, bucket, key, data, parity) == PlanOf(hash, other, bucket, key, data, parity)
  {
    hide Separates, StableOrder, NodesOf, DisksOf, AllTaken;
    var material := KeyMaterial(pl, bucket, key);
    assert material == KeyMaterial(other, bucket, key);
    SameNodes(pl.disks, other.disks);
    var nodes := OrderedNodes(hash, material, pl.disks);
    forall i | 0 <= i < |nodes|
      ensures Lists(hash, material, pl.disks, nodes)[i] == Lists(hash, material, other.disks, nodes)[i]
    {
      SameLists(hash, material, pl.disks, other.disks, nodes[i]);
    }
    assert Lists(hash, material, pl.disks, nodes) == Lists(hash, material, other.disks, nodes);
    assert |multiset(pl.disks)| == |multiset(other.disks)|;
  }
}
