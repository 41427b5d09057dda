/** The parts of the cluster demo that compute rather than print: the
    per-node shard tally, the ordering of the detailed shard listing, the
    master marker of the node listing and the truncated columns of the
    snapshot listing. */
module DemoQueries {
  import opened Optional
  import opened Text
  import opened Shards

  // ------------------------------------------------------ the shard tally

  datatype NodeCounts = NodeCounts(primary: nat, replica: nat)

  /** A key of the tally dict: a node name, or Python's `None` for a
      shard whose `node` is `null`. */
  type NodeKey = Option<string>

  /** `shard.get('node', 'unassigned')`: the default applies only when
      the field is absent; a `null` field gives `None`. */
  function NodeOf(s: Shard): NodeKey {
    match s.node
    case Absent => Some("unassigned")
    case Null => None
    case Named(name) => Some(name)
  }

  /** The nodes that hold at least one of the shards, each once, in the
      order of their first shard: the key order of the tally dict. */
  function Nodes(shards: seq<Shard>): seq<NodeKey> {
    if shards == [] then []
    else
      var seen := Nodes(shards[..|shards| - 1]);
      var node := NodeOf(shards[|shards| - 1]);
      if node in seen then seen else seen + [node]
  }

  /** The number of shards on `node` whose `prirep` is `p`. */
  function PrimaryOn(shards: seq<Shard>, node: NodeKey): nat {
    if shards == [] then 0
    else
      var last := shards[|shards| - 1];
      PrimaryOn(shards[..|shards| - 1], node) + if NodeOf(last) == node && last.prirep == "p" then 1 else 0
  }

  /** The number of shards on `node` whose `prirep` is anything else. */
  function ReplicaOn(shards: seq<Shard>, node: NodeKey): nat {
    if shards == [] then 0
    else
      var last := shards[|shards| - 1];
      ReplicaOn(shards[..|shards| - 1], node) + if NodeOf(last) == node && last.prirep != "p" then 1 else 0
  }

  /** A node is listed exactly when some shard is on it, and only once. */
  lemma {:induction false} NodesSpec(shards: seq<Shard>)
    ensures forall node :: node in Nodes(shards) <==> exists k :: 0 <= k < |shards| && NodeOf(shards[k]) == node
    ensures forall i, j :: 0 <= i < j < |Nodes(shards)| ==> Nodes(shards)[i] != Nodes(shards)[j]
  {
    if shards != [] {
      var init := shards[..|shards| - 1];
      NodesSpec(init);
      forall node | node in Nodes(shards)
        ensures exists k :: 0 <= k < |shards| && NodeOf(shards[k]) == node
      {
        if node in Nodes(init) {
          var k :| 0 <= k < |init| && NodeOf(init[k]) == node;
          assert shards[k] == init[k];
        } else {
          assert NodeOf(shards[|shards| - 1]) == node;
        }
      }
      forall node | exists k :: 0 <= k < |shards| && NodeOf(shards[k]) == node
        ensures node in Nodes(shards)
      {
        var k :| 0 <= k < |shards| && NodeOf(shards[k]) == node;
        if k < |init| {
          assert init[k] == shards[k];
        }
      }
    }
  }

  /** A node none of the shards is on counts zero of both kinds. */
  lemma {:induction false} UnseenNodeCountsZero(shards: seq<Shard>, node: NodeKey)
    requires node !in Nodes(shards)
    ensures PrimaryOn(shards, node) == 0 && ReplicaOn(shards, node) == 0
  {
    if shards != [] {
      var init := shards[..|shards| - 1];
      assert Nodes(init) <= Nodes(shards);
      UnseenNodeCountsZero(init, node);
    }
  }

  /** The tally loop of the shard-allocation view. It builds the dict
      `node_shards`, whose keys are also returned in insertion order. */
  method TallyShards(shards: seq<Shard>) returns (nodeShards: map<NodeKey, NodeCounts>, order: seq<NodeKey>)
    ensures order == Nodes(shards)
    ensures forall node :: node in nodeShards <==> node in order
    ensures forall node :: node in nodeShards ==>
              nodeShards[node] == NodeCounts(PrimaryOn(shards, node), ReplicaOn(shards, node))
  {
    nodeShards, order := map[], [];
    var i := 0;
    while i < |shards|
      invariant 0 <= i <= |shards|
      invariant order == Nodes(shards[..i])
      invariant forall node :: node in nodeShards <==> node in order
      invariant forall node :: node in nodeShards ==>
                  nodeShards[node] == NodeCounts(PrimaryOn(shards[..i], node), ReplicaOn(shards[..i], node))
    {
      var shard := shards[i];
      var node := NodeOf(shard);
      if node !in nodeShards {
        UnseenNodeCountsZero(shards[..i], node);
        nodeShards := nodeShards[node := NodeCounts(0, 0)];
        order := order + [node];
      }
      var counts := nodeShards[node];
      if shard.prirep == "p" {
        nodeShards := nodeShards[node := counts.(primary := counts.primary + 1)];
      } else {
        nodeShards := nodeShards[node := counts.(replica := counts.replica + 1)];
      }
      assert shards[..i + 1][..i] == shards[..i];
      i := i + 1;
    }
    assert shards[..i] == shards;
  }

  /** The shards held by the listed nodes, both kinds together. */
  function Held(nodes: seq<NodeKey>, shards: seq<Shard>): nat {
    if nodes == [] then 0
    else Held(nodes[..|nodes| - 1], shards) + PrimaryOn(shards, nodes[|nodes| - 1]) + ReplicaOn(shards, nodes[|nodes| - 1])
  }

  /** One more shard adds one to the total of a list of distinct nodes
      exactly when its node is in the list. */
  lemma {:induction false} HeldStep(nodes: seq<NodeKey>, shards: seq<Shard>, s: Shard)
    requires forall i, j :: 0 <= i < j < |nodes| ==> nodes[i] != nodes[j]
    ensures Held(nodes, shards + [s]) == Held(nodes, shards) + if NodeOf(s) in nodes then 1 else 0
  {
    assert (shards + [s])[..|shards|] == shards;
    if nodes != [] {
      var init := nodes[..|nodes| - 1];
      HeldStep(init, shards, s);
      assert nodes == init + [nodes[|nodes| - 1]];
    }
  }

  /** Every shard is counted exactly once: summed over the nodes of the
      tally, primaries plus replicas is the number of shards. */
  lemma {:induction false} TallyCountsEveryShard(shards: seq<Shard>)
    ensures Held(Nodes(shards), shards) == |shards|
  {
    if shards != [] {
      var init, last := shards[..|shards| - 1], shards[|shards| - 1];
      TallyCountsEveryShard(init);
      NodesSpec(init);
      NodesSpec(shards);
      assert shards == init + [last];
      HeldStep(Nodes(shards), init, last);
      var node := NodeOf(last);
      if node !in Nodes(init) {
        UnseenNodeCountsZero(init, node);
        var nodes := Nodes(shards);
        assert nodes[..|nodes| - 1] == Nodes(init);
      }
    }
  }

  // ---------------------------------------------------- the shard listing

  /** Python's ordering of strings: by code point, a proper prefix first. */
  predicate StrLe(a: string, b: string)
    decreases |a|
  {
    a == [] || (b != [] && (a[0] < b[0] || (a[0] == b[0] && StrLe(a[1..], b[1..]))))
  }

  lemma {:induction false} StrLeTotal(a: string, b: string)
    ensures StrLe(a, b) || StrLe(b, a)
    decreases |a|
  {
    if a != [] && b != [] && a[0] == b[0] {
      StrLeTotal(a[1..], b[1..]);
    }
  }

  lemma {:induction false} StrLeAntisymmetric(a: string, b: string)
    requires StrLe(a, b) && StrLe(b, a)
    ensures a == b
    decreases |a|
  {
    if a != [] {
      StrLeAntisymmetric(a[1..], b[1..]);
      assert a == [a[0]] + a[1..] && b == [b[0]] + b[1..];
    }
  }

  lemma {:induction false} StrLeTransitive(a: string, b: string, c: string)
    requires StrLe(a, b) && StrLe(b, c)
    ensures StrLe(a, c)
    decreases |a|
  {
    if a != [] && a[0] == b[0] && b[0] == c[0] {
      StrLeTransitive(a[1..], b[1..], c[1..]);
    }
  }

  /** The sort key `(x['shard'], x['prirep'])`, compared as a tuple. */
  predicate KeyLe(x: Shard, y: Shard) {
    if x.shard == y.shard then StrLe(x.prirep, y.prirep) else StrLe(x.shard, y.shard)
  }

  lemma KeyLeTotal(x: Shard, y: Shard)
    ensures KeyLe(x, y) || KeyLe(y, x)
  {
    StrLeTotal(x.shard, y.shard);
    StrLeTotal(x.prirep, y.prirep);
  }

  lemma KeyLeTransitive(x: Shard, y: Shard, z: Shard)
    requires KeyLe(x, y) && KeyLe(y, z)
    ensures KeyLe(x, z)
  {
    if x.shard == y.shard && y.shard == z.shard {
      StrLeTransitive(x.prirep, y.prirep, z.prirep);
    } else if x.shard == y.shard || y.shard == z.shard {
    } else {
      StrLeTransitive(x.shard, y.shard, z.shard);
      if x.shard == z.shard {
        StrLeAntisymmetric(x.shard, y.shard);
      }
    }
  }

  /** Each shard's key is at most the next one's. */
  predicate Sorted(s: seq<Shard>) {
    forall i :: 0 <= i < |s| - 1 ==> KeyLe(s[i], s[i + 1])
  }

  /** Places `x` before the first element of the sorted `t` that it does
      not follow. */
  function Insert(x: Shard, t: seq<Shard>): seq<Shard> {
    if t == [] || KeyLe(x, t[0]) then [x] + t else [t[0]] + Insert(x, t[1..])
  }

  /** `sorted(shards, key=lambda x: (x['shard'], x['prirep']))` */
  function SortShards(shards: seq<Shard>): seq<Shard> {
    if shards == [] then [] else Insert(shards[0], SortShards(shards[1..]))
  }

  lemma {:induction false} InsertSpec(x: Shard, t: seq<Shard>)
    requires Sorted(t)
    ensures Sorted(Insert(x, t)) && multiset(Insert(x, t)) == multiset(t) + multiset{x}
    ensures Insert(x, t)[0] == x || (t != [] && Insert(x, t)[0] == t[0])
  {
    if t != [] && !KeyLe(x, t[0]) {
      InsertSpec(x, t[1..]);
      KeyLeTotal(x, t[0]);
      assert t == [t[0]] + t[1..];
    }
  }

  /** In a sorted listing every shard's key is at most every later one's. */
  lemma {:induction false} SortedPairwise(s: seq<Shard>)
    requires Sorted(s)
    ensures forall i, j :: 0 <= i < j < |s| ==> KeyLe(s[i], s[j])
  {
    if |s| > 1 {
      SortedPairwise(s[1..]);
      forall j | 1 < j < |s|
        ensures KeyLe(s[0], s[j])
      {
        assert s[1..][j - 1] == s[j];
        KeyLeTransitive(s[0], s[1], s[j]);
      }
    }
  }

  /** The detailed listing shows every shard exactly as often as the API
      returned it, ascending by the pair (shard, prirep). */
  lemma {:induction false} SortShardsSpec(shards: seq<Shard>)
    ensures forall i, j :: 0 <= i < j < |SortShards(shards)| ==> KeyLe(SortShards(shards)[i], SortShards(shards)[j])
    ensures multiset(SortShards(shards)) == multiset(shards)
  {
    SortedListing(shards);
    SortedPairwise(SortShards(shards));
  }

  lemma {:induction false} SortedListing(shards: seq<Shard>)
    ensures Sorted(SortShards(shards)) && multiset(SortShards(shards)) == multiset(shards)
  {
    if shards != [] {
      SortedListing(shards[1..]);
      InsertSpec(shards[0], SortShards(shards[1..]));
      assert shards == [shards[0]] + shards[1..];
    }
  }

  /** The shards of `s` whose sort key is `(shard, prirep)`, in order. */
  function WithKey(s: seq<Shard>, shard: string, prirep: string): seq<Shard> {
    if s == [] then []
    else (if s[0].shard == shard && s[0].prirep == prirep then [s[0]] else []) + WithKey(s[1..], shard, prirep)
  }

  /** Inserting `x` keeps it ahead of every shard of `t` with its key. */
  lemma {:induction false} InsertWithKey(x: Shard, t: seq<Shard>, shard: string, prirep: string)
    ensures WithKey(Insert(x, t), shard, prirep) == WithKey([x] + t, shard, prirep)
  {
    assert ([x] + t)[1..] == t;
    if t != [] && !KeyLe(x, t[0]) {
      InsertWithKey(x, t[1..], shard, prirep);
      assert ([x] + t[1..])[1..] == t[1..];
      assert Insert(x, t)[1..] == Insert(x, t[1..]);
      StrLeTotal(x.prirep, x.prirep);
    }
  }

  /** `sorted` is stable: the shards that share a key appear in the
      listing in the order the API returned them. */
  lemma {:induction false} SortShardsStable(shards: seq<Shard>, shard: string, prirep: string)
    ensures WithKey(SortShards(shards), shard, prirep) == WithKey(shards, shard, prirep)
  {
    if shards != [] {
      SortShardsStable(shards[1..], shard, prirep);
      InsertWithKey(shards[0], SortShards(shards[1..]), shard, prirep);
      assert ([shards[0]] + SortShards(shards[1..]))[1..] == SortShards(shards[1..]);
    }
  }

  // --------------------------------------------------- the node listing

  /** `"★" if node.get('master') == '*' else " "` */
  function MasterIndicator(master: Option<string>): (r: string)
    ensures r == "★" <==> master == Some("*")
    ensures r == " " <==> master != Some("*")
  {
    if master == Some("*") then "★" else " "
  }

  // ----------------------------------------------- the snapshot listing

  /** `s[:width]` */
  function Truncate(s: string, width: nat): (r: string)
    ensures |r| <= width && r <= s
    ensures r == s <==> |s| <= width
    ensures |s| > width ==> r == s[..width]
  {
    if |s| <= width then s else s[..width]
  }

  /** The indices and start-time columns of a snapshot row: the indices
      joined by `', '` (none when absent) and the start time (`'N/A'`
      when absent), each cut to 18 characters. */
  function SnapshotColumns(indices: Option<seq<string>>, startTime: Option<string>): (r: (string, string))
    ensures |r.0| <= 18 && r.0 <= Join(indices.GetOr([]), ", ")
    ensures |r.1| <= 18 && r.1 <= startTime.GetOr("N/A")
    ensures r.0 == Join(indices.GetOr([]), ", ") <==> |Join(indices.GetOr([]), ", ")| <= 18
    ensures |Join(indices.GetOr([]), ", ")| > 18 ==> r.0 == Join(indices.GetOr([]), ", ")[..18]
    ensures r.1 == startTime.GetOr("N/A") <==> |startTime.GetOr("N/A")| <= 18
    ensures |startTime.GetOr("N/A")| > 18 ==> r.1 == startTime.GetOr("N/A")[..18]
    ensures startTime.None? ==> r.1 == "N/A"
  {
    (Truncate(Join(indices.GetOr([]), ", "), 18), Truncate(startTime.GetOr("N/A"), 18))
  }
}
