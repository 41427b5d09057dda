/** The loading stage: papers become bulk index actions, are sent to the
    search engine batch by batch with per-batch accounting, and the
    index is created (or recreated on request) beforehand. */
module IngestData {
  import opened Optional
  import opened Text
  import opened Json
  import opened Papers
  import opened Shards
  import opened Batching

  /** The `_source` document of one action. */
  datatype Source = Source(
    paperId: string,
    title: string,
    abstractText: string,
    categories: seq<string>,
    authors: string,
    updateDate: string,
    abstractVector: Vector)

  /** `{'_index': ..., '_id': ..., '_source': {...}}` */
  datatype Action = Action(index: string, id: string, source: Source)

  /** The action for one paper: every missing string key becomes `''`
      and every missing list key `[]`. */
  function ActionFor(paper: Paper, indexName: string): Action {
    var id := paper.id.GetOr("");
    Action(indexName, id, Source(
      id,
      paper.title.GetOr(""),
      paper.abstractText.GetOr(""),
      paper.categories.GetOr([]),
      paper.authors.GetOr(""),
      paper.updateDate.GetOr(""),
      paper.abstractVector.GetOr([])))
  }

  /** `generate_actions(papers, index_name)` */
  function GenerateActions(papers: seq<Paper>, indexName: string): (r: seq<Action>)
    ensures |r| == |papers|
  {
    if papers == [] then []
    else GenerateActions(papers[..|papers| - 1], indexName) + [ActionFor(papers[|papers| - 1], indexName)]
  }

  /** One action per paper, in the papers' order. */
  lemma {:induction false} GenerateActionsAt(papers: seq<Paper>, indexName: string)
    ensures forall k :: 0 <= k < |papers| ==> GenerateActions(papers, indexName)[k] == ActionFor(papers[k], indexName)
  {
    if papers != [] {
      GenerateActionsAt(papers[..|papers| - 1], indexName);
    }
  }

  /** The action at position `k` targets the given index, carries the
      paper's id (or `''`) both as `_id` and as `paper_id`, and copies each
      field present in the paper, defaulting the others. */
  lemma ActionSpec(papers: seq<Paper>, indexName: string, k: nat)
    requires k < |papers|
    ensures var a := GenerateActions(papers, indexName)[k];
      && a.index == indexName
      && a.id == a.source.paperId
      && (papers[k].id.Some? ==> a.id == papers[k].id.value)
      && (papers[k].id.None? ==> a.id == "")
      && (papers[k].title.Some? ==> a.source.title == papers[k].title.value)
      && (papers[k].title.None? ==> a.source.title == "")
      && (papers[k].abstractText.Some? ==> a.source.abstractText == papers[k].abstractText.value)
      && (papers[k].abstractText.None? ==> a.source.abstractText == "")
      && (papers[k].categories.Some? ==> a.source.categories == papers[k].categories.value)
      && (papers[k].categories.None? ==> a.source.categories == [])
      && (papers[k].authors.Some? ==> a.source.authors == papers[k].authors.value)
      && (papers[k].authors.None? ==> a.source.authors == "")
      && (papers[k].updateDate.Some? ==> a.source.updateDate == papers[k].updateDate.value)
      && (papers[k].updateDate.None? ==> a.source.updateDate == "")
      && (papers[k].abstractVector.Some? ==> a.source.abstractVector == papers[k].abstractVector.value)
      && (papers[k].abstractVector.None? ==> a.source.abstractVector == [])
  {
    GenerateActionsAt(papers, indexName);
  }

  /** Actions of consecutive slices are the consecutive slices of the actions. */
  lemma {:induction false} GenerateActionsAppend(a: seq<Paper>, b: seq<Paper>, indexName: string)
    ensures GenerateActions(a + b, indexName) == GenerateActions(a, indexName) + GenerateActions(b, indexName)
  {
    var l, r := GenerateActions(a + b, indexName), GenerateActions(a, indexName) + GenerateActions(b, indexName);
    GenerateActionsAt(a + b, indexName);
    GenerateActionsAt(a, indexName);
    GenerateActionsAt(b, indexName);
    assert |l| == |r|;
    forall k | 0 <= k < |l|
      ensures l[k] == r[k]
    {
      if k < |a| {
        assert (a + b)[k] == a[k];
      } else {
        assert (a + b)[k] == b[k - |a|];
      }
    }
  }

  // ---------------------------------------------------------------------
  // What the engine does with index actions: a document store keyed by
  // `_id`, where indexing a document under an existing id replaces it
  // and an action whose `_id` is empty is rejected.

  type Store = map<string, Source>

  function Apply(store: Store, actions: seq<Action>): Store {
    if actions == [] then store
    else
      var last := actions[|actions| - 1];
      var before := Apply(store, actions[..|actions| - 1]);
      if last.id == "" then before else before[last.id := last.source]
  }

  /** Indexing overwrites: the result is the old store updated with what
      the actions alone would build, the later action winning for a
      repeated id. */
  lemma {:induction false} ApplyOverwrites(store: Store, actions: seq<Action>)
    ensures Apply(store, actions) == store + Apply(map[], actions)
  {
    if actions != [] {
      var last := actions[|actions| - 1];
      ApplyOverwrites(store, actions[..|actions| - 1]);
      var built := Apply(map[], actions[..|actions| - 1]);
      if last.id != "" {
        assert (store + built)[last.id := last.source] == store + built[last.id := last.source];
      }
    }
  }

  /** The ids present after a load are the old ones plus the non-empty
      id of every paper; a paper without an id is not stored. */
  lemma {:induction false} ApplyKeys(store: Store, actions: seq<Action>)
    ensures Apply(store, actions).Keys == store.Keys + set a | a in actions && a.id != "" :: a.id
  {
    if actions != [] {
      var init := actions[..|actions| - 1];
      ApplyKeys(store, init);
      assert actions == init + [actions[|actions| - 1]];
      var last := actions[|actions| - 1];
      if last.id == "" {
        assert (set a | a in actions && a.id != "" :: a.id) == (set a | a in init && a.id != "" :: a.id);
      } else {
        assert (set a | a in actions && a.id != "" :: a.id) == (set a | a in init && a.id != "" :: a.id) + {last.id};
      }
    }
  }

  /** Loading the same papers twice leaves the index as one load does. */
  lemma ReloadIsIdempotent(store: Store, papers: seq<Paper>, indexName: string)
    ensures var actions := GenerateActions(papers, indexName);
      Apply(Apply(store, actions), actions) == Apply(store, actions)
  {
    var actions := GenerateActions(papers, indexName);
    var built := Apply(map[], actions);
    ApplyOverwrites(store, actions);
    ApplyOverwrites(store + built, actions);
    assert (store + built) + built == store + built;
  }

  // ---------------------------------------------------------------------
  // bulk_index_papers

  /** What the `bulk` helper does with one batch, decided by the engine:
      it returns the `(success, failed)` counts, or raises. */
  datatype BulkOutcome = Counts(success: nat, failed: nat) | Raised

  /** The requests the loading loop sends to the engine. */
  datatype Request = BulkRequest(actions: seq<Action>) | Refresh(index: string)

  datatype Totals = Totals(indexed: nat, errors: nat)

  datatype Failure = ValueError

  /** The bulk request of each batch, in order. */
  function BulkRequests(batches: seq<seq<Paper>>, indexName: string): (r: seq<Request>)
    ensures |r| == |batches|
  {
    if batches == [] then []
    else BulkRequests(batches[..|batches| - 1], indexName) + [BulkRequest(GenerateActions(batches[|batches| - 1], indexName))]
  }

  /** The counters after one more batch, answered by `outcome`. */
  function Count(t: Totals, outcome: BulkOutcome, batchLength: nat): Totals {
    match outcome
    case Counts(success, failed) => Totals(t.indexed + success, t.errors + failed)
    case Raised => Totals(t.indexed, t.errors + batchLength)
  }

  /** The counters after the given batches, batch `k` being answered by
      `bulk(k, actions)`: counts add `success` and `failed`, an exception
      adds the whole batch to the errors. */
  function Tally(batches: seq<seq<Paper>>, indexName: string, bulk: (nat, seq<Action>) -> BulkOutcome): Totals {
    if batches == [] then Totals(0, 0)
    else
      var k := |batches| - 1;
      Count(Tally(batches[..k], indexName, bulk), bulk(k, GenerateActions(batches[k], indexName)), |batches[k]|)
  }

  /** The batch loop of `bulk_index_papers`: every batch is sent, whatever
      earlier batches did, and the counters are updated after each. */
  method SendBatches(papers: seq<Paper>, indexName: string, batchSize: nat,
                     bulk: (nat, seq<Action>) -> BulkOutcome)
    returns (totals: Totals, requests: seq<Request>)
    requires batchSize > 0
    ensures requests == BulkRequests(Batches(papers, batchSize), indexName)
    ensures totals == Tally(Batches(papers, batchSize), indexName, bulk)
  {
    totals, requests := Totals(0, 0), [];
    ghost var done: seq<seq<Paper>> := [];
    var i, k := 0, 0;
    while i < |papers|
      invariant 0 <= i <= |papers| && k == |done|
      invariant done + Batches(papers[i..], batchSize) == Batches(papers, batchSize)
      invariant requests == BulkRequests(done, indexName)
      invariant totals == Tally(done, indexName, bulk)
      decreases |papers| - i
    {
      var end := if i + batchSize < |papers| then i + batchSize else |papers|;
      var batch := papers[i..end];
      LoopStep(papers, i, batchSize, done);
      var actions := GenerateActions(batch, indexName);
      totals := Count(totals, bulk(k, actions), |batch|);
      requests := requests + [BulkRequest(actions)];
      assert (done + [batch])[..|done|] == done;
      done := done + [batch];
      i, k := end, k + 1;
    }
    LoopEnd(papers, batchSize, done);
  }

  /** `bulk_index_papers(client, papers, index_name, batch_size)`. A batch
      size of 0 raises before anything is sent; a negative one sends no
      batch. Otherwise every batch is attempted, then the index is
      refreshed once. The result is the number of documents indexed. */
  method BulkIndexPapers(papers: seq<Paper>, indexName: string, batchSize: int,
                         bulk: (nat, seq<Action>) -> BulkOutcome)
    returns (error: Option<Failure>, totalIndexed: nat, totalErrors: nat, requests: seq<Request>)
    ensures error.Some? <==> batchSize == 0
    ensures batchSize == 0 ==> requests == []
    ensures batchSize < 0 ==> totalIndexed == 0 && totalErrors == 0 && requests == [Refresh(indexName)]
    ensures batchSize > 0 ==>
      && requests == BulkRequests(Batches(papers, batchSize), indexName) + [Refresh(indexName)]
      && Totals(totalIndexed, totalErrors) == Tally(Batches(papers, batchSize), indexName, bulk)
  {
    if batchSize == 0 {
      return Some(ValueError), 0, 0, [];
    }
    var totals := Totals(0, 0);
    requests := [];
    if batchSize > 0 {
      totals, requests := SendBatches(papers, indexName, batchSize, bulk);
    }
    error, totalIndexed, totalErrors := None, totals.indexed, totals.errors;
    requests := requests + [Refresh(indexName)];
  }

  /** When every normal return of `bulk` accounts for each action of its
      batch, indexed plus errors is the number of papers loaded, and
      nothing counts as indexed beyond that. */
  lemma {:induction false} TallyAccountsForEveryPaper(batches: seq<seq<Paper>>, indexName: string,
                                                       bulk: (nat, seq<Action>) -> BulkOutcome)
    requires forall k :: 0 <= k < |batches| && bulk(k, GenerateActions(batches[k], indexName)).Counts? ==>
               bulk(k, GenerateActions(batches[k], indexName)).success
               + bulk(k, GenerateActions(batches[k], indexName)).failed == |batches[k]|
    ensures Tally(batches, indexName, bulk).indexed + Tally(batches, indexName, bulk).errors == |Flatten(batches)|
  {
    if batches != [] {
      var init, last := batches[..|batches| - 1], batches[|batches| - 1];
      forall k | 0 <= k < |init|
        ensures init[k] == batches[k]
      {
      }
      TallyAccountsForEveryPaper(init, indexName, bulk);
      assert batches == init + [last];
      FlattenAppend(init, [last]);
      assert Flatten([last]) == last;
    }
  }

  lemma AccountingOfALoad(papers: seq<Paper>, indexName: string, batchSize: nat,
                          bulk: (nat, seq<Action>) -> BulkOutcome)
    requires batchSize > 0
    requires forall k :: (0 <= k < |Batches(papers, batchSize)| &&
                          bulk(k, GenerateActions(Batches(papers, batchSize)[k], indexName)).Counts?) ==>
               bulk(k, GenerateActions(Batches(papers, batchSize)[k], indexName)).success
               + bulk(k, GenerateActions(Batches(papers, batchSize)[k], indexName)).failed
               == |Batches(papers, batchSize)[k]|
    ensures Tally(Batches(papers, batchSize), indexName, bulk).indexed
          + Tally(Batches(papers, batchSize), indexName, bulk).errors == |papers|
  {
    TallyAccountsForEveryPaper(Batches(papers, batchSize), indexName, bulk);
    BatchesPartition(papers, batchSize);
  }

  /** Everything the requests submit for indexing, in order. */
  function Payload(requests: seq<Request>): seq<Action> {
    if requests == [] then []
    else
      var last := requests[|requests| - 1];
      Payload(requests[..|requests| - 1]) + if last.BulkRequest? then last.actions else []
  }

  /** Every paper is submitted in exactly one bulk request, in order: the
      payload of the batch requests is the action list of all papers. */
  lemma {:induction false} RequestsCoverPapers(batches: seq<seq<Paper>>, indexName: string)
    ensures Payload(BulkRequests(batches, indexName)) == GenerateActions(Flatten(batches), indexName)
  {
    if batches != [] {
      var init, last := batches[..|batches| - 1], batches[|batches| - 1];
      RequestsCoverPapers(init, indexName);
      assert batches == init + [last];
      FlattenAppend(init, [last]);
      assert Flatten([last]) == last;
      GenerateActionsAppend(Flatten(init), last, indexName);
    }
  }

  // ---------------------------------------------------------------------
  // verify_index: the shard partition

  /** `[s for s in shards if s['prirep'] == tag]` */
  function WithPrirep(shards: seq<Shard>, tag: string): (r: seq<Shard>)
    ensures |r| <= |shards|
  {
    if shards == [] then []
    else
      var rest := WithPrirep(shards[..|shards| - 1], tag);
      if shards[|shards| - 1].prirep == tag then rest + [shards[|shards| - 1]] else rest
  }

  /** The comprehension keeps exactly the shards with the tag. */
  lemma {:induction false} WithPrirepMembers(shards: seq<Shard>, tag: string)
    ensures forall s :: s in WithPrirep(shards, tag) <==> s in shards && s.prirep == tag
  {
    if shards != [] {
      WithPrirepMembers(shards[..|shards| - 1], tag);
      assert shards == shards[..|shards| - 1] + [shards[|shards| - 1]];
    }
  }

  /** The comprehension distributes over concatenation; with
      `WithPrirepOne` it keeps every shard with the tag, duplicates
      included, in input order. */
  lemma {:induction false} WithPrirepAppend(a: seq<Shard>, b: seq<Shard>, tag: string)
    ensures WithPrirep(a + b, tag) == WithPrirep(a, tag) + WithPrirep(b, tag)
    decreases |b|
  {
    if b == [] {
      assert a + b == a;
    } else {
      var init, last := b[..|b| - 1], b[|b| - 1];
      assert (a + b)[..|a + b| - 1] == a + init;
      assert (a + b)[|a + b| - 1] == last;
      WithPrirepAppend(a, init, tag);
      if last.prirep == tag {
        assert WithPrirep(a + b, tag) == WithPrirep(a + init, tag) + [last];
        assert WithPrirep(b, tag) == WithPrirep(init, tag) + [last];
      } else {
        assert WithPrirep(a + b, tag) == WithPrirep(a + init, tag);
        assert WithPrirep(b, tag) == WithPrirep(init, tag);
      }
    }
  }

  /** A single shard is kept exactly when it has the tag. */
  lemma WithPrirepOne(s: Shard, tag: string)
    ensures WithPrirep([s], tag) == if s.prirep == tag then [s] else []
  {
    assert [s][..0] == [];
  }

  /** The count printed for a tag is the number of shards with that tag. */
  lemma WithPrirepCount(shards: seq<Shard>, tag: string)
    ensures |WithPrirep(shards, tag)| == |Positions(shards, |shards|, tag)|
  {
    CountBelow(shards, |shards|, tag);
    assert shards[..|shards|] == shards;
  }

  /** The positions below `m` whose `prirep` is `tag`. */
  function Positions(shards: seq<Shard>, m: nat, tag: string): set<nat>
    requires m <= |shards|
  {
    set k: nat | k < m && shards[k].prirep == tag
  }

  lemma {:induction false} CountBelow(shards: seq<Shard>, m: nat, tag: string)
    requires m <= |shards|
    ensures |WithPrirep(shards[..m], tag)| == |Positions(shards, m, tag)|
  {
    if m > 0 {
      CountBelow(shards, m - 1, tag);
      assert shards[..m][..m - 1] == shards[..m - 1];
      var before := Positions(shards, m - 1, tag);
      assert m - 1 !in before;
      if shards[m - 1].prirep == tag {
        assert Positions(shards, m, tag) == before + {m - 1};
      } else {
        assert Positions(shards, m, tag) == before;
      }
    } else {
      assert Positions(shards, 0, tag) == {};
    }
  }

  function PrimaryShards(shards: seq<Shard>): seq<Shard> {
    WithPrirep(shards, "p")
  }

  function ReplicaShards(shards: seq<Shard>): seq<Shard> {
    WithPrirep(shards, "r")
  }

  /** Primary and replica lists share no shard, and together they are at
      most all shards, exactly all when every tag is `p` or `r`. */
  lemma {:induction false} ShardPartition(shards: seq<Shard>)
    ensures forall s :: s in PrimaryShards(shards) ==> s !in ReplicaShards(shards)
    ensures |PrimaryShards(shards)| + |ReplicaShards(shards)| <= |shards|
    ensures |PrimaryShards(shards)| + |ReplicaShards(shards)| == |shards| <==>
            forall k :: 0 <= k < |shards| ==> shards[k].prirep in {"p", "r"}
  {
    WithPrirepMembers(shards, "p");
    WithPrirepMembers(shards, "r");
    if shards != [] {
      var init := shards[..|shards| - 1];
      ShardPartition(init);
      if forall k :: 0 <= k < |shards| ==> shards[k].prirep in {"p", "r"} {
        assert forall k :: 0 <= k < |init| ==> init[k].prirep == shards[k].prirep;
      } else if forall k :: 0 <= k < |init| ==> init[k].prirep in {"p", "r"} {
        assert shards[|shards| - 1].prirep !in {"p", "r"};
      } else {
        var k :| 0 <= k < |init| && init[k].prirep !in {"p", "r"};
        assert shards[k] == init[k];
      }
    }
  }

  // ---------------------------------------------------------------------
  // create_index

  datatype IndexOp = DeleteIndex(index: string) | CreateIndex(index: string, settings: Json, mappings: Json)

  /** The engine calls `create_index` makes, given whether the index
      exists and the operator's answer to the recreate prompt. */
  function CreateIndexOps(indexExists: bool, answer: string, indexName: string, mapping: map<string, Json>): seq<IndexOp> {
    var create := CreateIndex(indexName, GetObject(mapping, "settings"), GetObject(mapping, "mappings"));
    if indexExists && Lower(answer) != "y" then []
    else if indexExists then [DeleteIndex(indexName), create]
    else [create]
  }

  /** `response.lower() == 'y'` accepts exactly `y` and `Y`. */
  lemma LowerIsY(answer: string)
    ensures Lower(answer) == "y" <==> answer == "y" || answer == "Y"
  {
    LowerAt(answer);
    if |answer| == 1 && Lower(answer) == "y" {
      assert LowerChar(answer[0]) == 'y';
      assert answer == [answer[0]];
    }
  }

  /** An existing index is dropped and recreated only on `y`/`Y`, kept
      untouched otherwise; a missing index is created. A create always
      carries the mapping's `settings` and `mappings` (or `{}`), and the
      index is never deleted without being created again. */
  lemma CreateIndexSpec(indexExists: bool, answer: string, indexName: string, mapping: map<string, Json>)
    ensures var ops := CreateIndexOps(indexExists, answer, indexName, mapping);
      && (indexExists && (answer == "y" || answer == "Y") ==> ops[0] == DeleteIndex(indexName) && |ops| == 2)
      && (indexExists && answer != "y" && answer != "Y" ==> ops == [])
      && (!indexExists ==> |ops| == 1)
      && (ops != [] ==> ops[|ops| - 1] == CreateIndex(indexName,
            if "settings" in mapping then mapping["settings"] else JObject(map[]),
            if "mappings" in mapping then mapping["mappings"] else JObject(map[])))
      && (forall k :: 0 <= k < |ops| ==> ops[k].DeleteIndex? ==> indexExists && k < |ops| - 1)
  {
    LowerIsY(answer);
  }
}
