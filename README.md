# arXiv search pipeline — a Dafny model

The repository is a small pipeline that puts arXiv computer-science papers into
a search engine. It has five steps, and each step has one Dafny module here:

- **`DownloadDataset`** (`scripts/download_dataset.py`)
  - reads the line-delimited metadata dump;
  - keeps the papers with a `cs.` category, up to an optional cap, normalising their text fields;
  - can also synthesise a sample dataset.
- **`GenerateEmbeddings`** (`scripts/generate_embeddings.py`)
  - encodes every abstract, batch by batch, with a sentence model;
  - attaches the vectors, in place, to the paper records.
- **`IngestData`** (`scripts/ingest_data.py`)
  - turns papers into bulk index actions and sends them in batches, counting successes and errors;
  - refreshes the index;
  - creates the index first, or recreates it when the operator confirms;
  - splits a shard listing into primaries and replicas.
- **`SetupSnapshots`** (`scripts/setup_snapshots.py`)
  - builds the snapshot-repository, create-snapshot and restore request bodies;
  - names snapshots automatically from the clock;
  - ignores only the "repository already exists" registration error;
  - handles the menu's name and rename choices.
- **`DemoQueries`** (`scripts/demo_queries.py`)
  - counts primary and replica shards per node;
  - orders the detailed shard listing;
  - marks the master node;
  - truncates the snapshot-listing columns.

Shared modules:

- `Optional`: absent dictionary keys and `None` arguments.
- `Text`: Python's `split()`, `strip()`, `replace`, ASCII `lower()`, `in`, `join`, `split(c)`.
- `Decimal`: `str(n)` and zero-padded formats, with their parsing back.
- `Batching`: the `range(0, n, b)` slicing idiom.
- `Papers`: the paper record.
- `Json`: request bodies.
- `Shards`: cat-shards rows.

The search engine, the sentence model, the operator and the clock are not
computed. Each one becomes a parameter:

- the model is a function `encode` from a batch of texts to vectors;
- the bulk helper is a function `bulk(k, actions)` giving batch `k`'s outcome;
- `input()` answers are strings;
- `datetime.now()` is a `DateTime` value.

Each engine call is modelled as the request it would send.

Where the code works by changing state, the model does too:

- the filter loop, the sample loop, the embedding loop, the bulk loop and the shard tally are methods with loops;
- the vectors are attached in place to an `array` of papers.

Each such method is proved against a specification function, and the properties are proved about those functions.

## Model

| member | source | states |
|---|---|---|
| `Text.SplitTokens` | scripts/download_dataset.py:95-96 | `str.split()` yields non-empty tokens that contain no whitespace |
| `Text.SplitKeepsNonSpace` | scripts/download_dataset.py:95-96 | the tokens of `split()`, glued together, are exactly the non-whitespace characters of the string, in order |
| `Text.SplitBlank` | scripts/download_dataset.py:94-96 | an empty or all-whitespace string splits into no tokens |
| `Text.SplitWord` | scripts/download_dataset.py:95-96 | a non-empty run without whitespace is one token, whole |
| `Text.SplitAtSpace` | scripts/download_dataset.py:95-96 | a whitespace character separates: the text on each side of it is split on its own and the tokens are concatenated; with `SplitWord` this makes the tokens the maximal whitespace-free runs |
| `Text.StripEnds` | scripts/download_dataset.py:102-103 | `strip()` leaves no whitespace at either end |
| `Text.StripFramed` | scripts/download_dataset.py:102-103 | the stripped text is a contiguous piece of the original with only whitespace around it |
| `Text.StripKeepsCharacters` | scripts/download_dataset.py:102-103 | every character of the stripped text occurs in the original |
| `Text.ReplaceCharAt` | scripts/download_dataset.py:102-103 | `replace(a, b)` changes each `a` into `b` and leaves every other character where it was |
| `Text.LowerAt` | scripts/ingest_data.py:98 | `lower()` works character by character, keeping the length |
| `Text.ContainsAt` | scripts/setup_snapshots.py:286 | the substring test `needle in s` holds iff the needle occurs at some position |
| `Text.LowerKeepsOccurrence` | scripts/setup_snapshots.py:286 | an occurrence of a needle in `s` is an occurrence of the lowered needle in `s.lower()` at the same position |
| `Text.SplitOnJoin` | scripts/setup_snapshots.py:120-122 | splitting `",".join(xs)` on `,` gives `xs` back when no element contains a comma |
| `Decimal.ValueOfDigits` | scripts/download_dataset.py:176 | `str(n)` is all digits and reads back as `n` |
| `Decimal.ZeroPadValue` | scripts/download_dataset.py:167 | a zero-padded number is all digits and reads back as the number |
| `Decimal.ZeroPadWidth` | scripts/download_dataset.py:167 | a number below `10^w` padded to width `w` has exactly `w` characters, and starts with `0` when it is below `10^(w-1)` |
| `Batching.BatchesPartition` | scripts/generate_embeddings.py:84-85 | the slices `s[i:i+b]` for `i = 0, b, 2b, ...`, concatenated in order, are `s` |
| `Batching.BatchesCount` | scripts/generate_embeddings.py:84-85 | there are `ceil(len(s) / b)` slices |
| `Batching.BatchesSizes` | scripts/generate_embeddings.py:84-85 | every slice but the last has `b` elements; the last has between 1 and `b` |
| `DownloadDataset.CsTagsMembers` | scripts/download_dataset.py:104 | the kept categories are exactly the original tags that start with `cs.`, and never more tags than the original |
| `DownloadDataset.CsTagsAppend` | scripts/download_dataset.py:104 | the comprehension distributes over concatenation and keeps a single tag iff it starts with `cs.`: every such tag is kept, duplicates included, in input order |
| `DownloadDataset.AnyCsIffCsTags` | scripts/download_dataset.py:98 | the `any(...startswith('cs.'))` test holds iff some tag has the prefix, iff the narrowed list is non-empty |
| `DownloadDataset.CsTagsIdempotent` | scripts/download_dataset.py:104 | narrowing an already narrowed list changes nothing |
| `DownloadDataset.NormalizeSpec` | scripts/download_dataset.py:102-103 | a normalised title or abstract has no newline and no whitespace at either end, and keeps every non-whitespace character in order |
| `DownloadDataset.Select` | scripts/download_dataset.py:94-107 | a parsed paper yields a record iff some tag (after splitting a string value) starts with `cs.` |
| `DownloadDataset.SelectSpec` | scripts/download_dataset.py:94-107 | a kept record has a non-empty category list of exactly the `cs.` tags, newline-free title and abstract, and id, authors and date copied or defaulted to `''` |
| `DownloadDataset.MissingCategoriesNeverKept` | scripts/download_dataset.py:94-96 | a paper without categories, or with a blank category string, is never kept |
| `DownloadDataset.CapMeansBreak` | scripts/download_dataset.py:108-112 | how `max_papers` becomes the cap: `None` and `0` mean no cap, and a negative value acts as a cap of 1; once a paper is kept, the source's test `max_papers and len(cs_papers) >= max_papers` holds iff the kept count has reached that cap |
| `DownloadDataset.MatchesAtMostParsed` | scripts/download_dataset.py:89-108 | no more papers are kept than lines parsed |
| `DownloadDataset.CapPrefix` | scripts/download_dataset.py:108-112 | when the loop stops, it has kept every match (no cap) or the first `min(cap, matches)` matches of the whole input, in input order |
| `DownloadDataset.FilterLines` | scripts/download_dataset.py:88-112 | the read loop keeps exactly the selected records of the lines it read, in order, counts the parsed lines, reads everything when there is no cap, never exceeds the cap, and stops early only on the line that brings the kept count to the cap |
| `DownloadDataset.FilterCsPapers` | scripts/download_dataset.py:69-124 | the returned count is the number kept and at most the number parsed; malformed lines are skipped and not counted; with a cap, reading stops at the line that reaches it |
| `DownloadDataset.AppendEach` | scripts/download_dataset.py:162-179 | the `for i in range(n)` append loop yields `f(0) ... f(n-1)`, and nothing for `n <= 0` |
| `DownloadDataset.CreateSampleDataset` | scripts/download_dataset.py:127-186 | returns `num_samples` itself and generates paper `i` for each `i` in `range(num_samples)` |
| `DownloadDataset.SampleDatasetAt` | scripts/download_dataset.py:162-179 | the sample dataset has `max(n, 0)` papers, entry `i` being paper `i` |
| `DownloadDataset.SampleCategorySpec` | scripts/download_dataset.py:164-175 | paper `i` has the single category `cs_categories[i % 10]`, which the filter would keep |
| `DownloadDataset.Date2023Spec` | scripts/download_dataset.py:177 | `2023-MM-DD` has ten characters, and its two-digit fields read back as the month and the day |
| `DownloadDataset.SampleDateSpec` | scripts/download_dataset.py:177 | paper `i`'s date has month `i % 12 + 1` (1 to 12) and day `i % 28 + 1` (1 to 28) |
| `DownloadDataset.DottedSpec` | scripts/download_dataset.py:167 | `YYYY.NNNNN` ends in a dot and five digits starting with `0`, and both parts read back as the year and the serial |
| `DownloadDataset.DottedInjective` | scripts/download_dataset.py:167 | two identifiers are equal only when their years and serials are |
| `DownloadDataset.SampleIdsDistinct` | scripts/download_dataset.py:167 | different sample papers get different identifiers |
| `GenerateEmbeddings.AbstractsAt` | scripts/generate_embeddings.py:78 | one abstract per paper, in order, `''` for a paper without one |
| `GenerateEmbeddings.EncodeInBatches` | scripts/generate_embeddings.py:83-87 | `encode` is called once per slice `abstracts[i:i+b]`, in order, and the embeddings are its answers concatenated |
| `GenerateEmbeddings.OneEmbeddingPerAbstract` | scripts/generate_embeddings.py:83-87 | with a model that returns one vector per text, there is one embedding per abstract, from `ceil(n / b)` calls (none for no papers) |
| `GenerateEmbeddings.AttachedSpec` | scripts/generate_embeddings.py:91-93 | attaching sets `abstract_vector` of paper `k` to embedding `k` for `k` below the shorter length, changes no other field, and leaves later papers unchanged |
| `GenerateEmbeddings.AttachVectors` | scripts/generate_embeddings.py:91-93 | the in-place loop over `zip(papers, all_embeddings)` leaves the array equal to the attached papers |
| `GenerateEmbeddings.Embed` | scripts/generate_embeddings.py:48-95 | batch size 0 raises and changes nothing; a negative one makes no call and changes nothing; otherwise the same papers come back carrying the vectors |
| `GenerateEmbeddings.EveryPaperEmbedded` | scripts/generate_embeddings.py:78-93 | with a model that returns one vector per text, every paper ends up carrying a vector |
| `IngestData.GenerateActionsAt` | scripts/ingest_data.py:146-160 | one action per paper, in the papers' order |
| `IngestData.ActionSpec` | scripts/ingest_data.py:148-157 | each action targets the index, has `_id` equal to `paper_id` equal to the paper's id (or `''`), and copies every present field, defaulting strings to `''` and lists to `[]` |
| `IngestData.GenerateActionsAppend` | scripts/ingest_data.py:187-195 | the actions of two consecutive slices are the actions of their concatenation |
| `IngestData.ApplyOverwrites` | scripts/ingest_data.py:149-150 | indexing by `_id` overwrites: the index afterwards is the old index updated with the new documents, the later document winning for a repeated id |
| `IngestData.ApplyKeys` | scripts/ingest_data.py:149-150 | the ids present after a load are the old ones plus the loaded papers' non-empty ids; a paper without an id (`_id` of `''`) is not stored |
| `IngestData.ReloadIsIdempotent` | scripts/ingest_data.py:148-151 | loading the same papers a second time leaves the index as one load does |
| `IngestData.SendBatches` | scripts/ingest_data.py:187-206 | every batch `papers[i:i+b]` is sent, in order, whatever earlier batches did, and the counters are the tally of the outcomes |
| `IngestData.BulkIndexPapers` | scripts/ingest_data.py:163-213 | batch size 0 raises before any request; otherwise the bulk requests are followed by exactly one refresh, and the indexed and error counts are the tally |
| `IngestData.TallyAccountsForEveryPaper` | scripts/ingest_data.py:191-206 | when each batch's normal bulk return has `success + failed == len(batch)`, indexed plus errors is the number of papers sent (an exception counts the whole batch as errors) |
| `IngestData.AccountingOfALoad` | scripts/ingest_data.py:187-206 | the same for a whole load: indexed plus errors equals `len(papers)` |
| `IngestData.RequestsCoverPapers` | scripts/ingest_data.py:187-195 | the bulk requests together submit exactly the actions of all papers, in order |
| `IngestData.WithPrirepMembers` | scripts/ingest_data.py:237-238 | the comprehension keeps exactly the shards with the given `prirep` |
| `IngestData.WithPrirepAppend` | scripts/ingest_data.py:237-238 | the comprehension distributes over concatenation; with `WithPrirepOne` every shard with the tag is kept, duplicates included, in input order |
| `IngestData.WithPrirepOne` | scripts/ingest_data.py:237-238 | a single shard is kept iff its `prirep` is the tag |
| `IngestData.WithPrirepCount` | scripts/ingest_data.py:237-240 | the printed count for a tag is the number of positions in the listing whose `prirep` is that tag |
| `IngestData.ShardPartition` | scripts/ingest_data.py:237-238 | primaries and replicas are disjoint; together there are at most as many as shards, exactly as many iff every tag is `p` or `r` |
| `IngestData.LowerIsY` | scripts/ingest_data.py:98 | `response.lower() == 'y'` holds exactly for `y` and `Y` |
| `IngestData.CreateIndexSpec` | scripts/ingest_data.py:95-110 | an existing index is deleted and then created on `y`/`Y` and left alone otherwise; a missing one is created with the mapping's `settings` and `mappings` (or `{}`); a delete is always followed by a create |
| `SetupSnapshots.StampRoundTrip` | scripts/setup_snapshots.py:115 | the `%Y%m%d_%H%M%S` stamp has 15 characters with `_` at position 8 and reads back as the clock reading |
| `SetupSnapshots.StampInjective` | scripts/setup_snapshots.py:115 | different clock readings give different stamps |
| `SetupSnapshots.RegisterRepository` | scripts/setup_snapshots.py:79-88 | the repository body is always of type `fs`, with the given location and compression on, and nothing else |
| `SetupSnapshots.CreateSnapshotSpec` | scripts/setup_snapshots.py:114-129 | the automatic name is `snapshot_` and the stamp, and a given name is kept; the body has `indices` iff the list is non-empty, and the list can be read back from it; the wait flag is passed through |
| `SetupSnapshots.RestoreSnapshotSpec` | scripts/setup_snapshots.py:243-255 | the same `indices` rule; both rename keys are present iff pattern and replacement are both non-empty, so never one without the other; the wait flag is passed through |
| `SetupSnapshots.AfterRegistrationSpec` | scripts/setup_snapshots.py:284-289 | a registration error whose message contains `repository_already_exists` in any letter case is swallowed, and so is success |
| `SetupSnapshots.OtherErrorsReraised` | scripts/setup_snapshots.py:284-289 | every other registration error is raised again |
| `SetupSnapshots.DemoSnapshotCall` | scripts/setup_snapshots.py:294-296 | the demo snapshot is `demo_snapshot_` and the stamp, snapshots the configured index and is waited for |
| `SetupSnapshots.MenuChoice` | scripts/setup_snapshots.py:333-357 | only the exact answers `1` to `6` select a menu entry |
| `SetupSnapshots.MenuCreateSpec` | scripts/setup_snapshots.py:335-337 | a typed name that strips to nothing gives an automatic name; any other is used stripped |
| `SetupSnapshots.MenuRestoreSpec` | scripts/setup_snapshots.py:340-351 | a restore is sent only when snapshots exist and a name was typed; it restores the configured index, renaming it to `<index>_restored` (a different name) whenever the index name is non-empty |
| `DemoQueries.NodesSpec` | scripts/demo_queries.py:113-117 | a node is a key of the tally iff some shard is on it, and appears once; the key is `unassigned` when the row has no `node` field and `None` when the field is `null` |
| `DemoQueries.UnseenNodeCountsZero` | scripts/demo_queries.py:116-117 | a node seen for the first time starts at 0 primaries and 0 replicas |
| `DemoQueries.TallyShards` | scripts/demo_queries.py:113-121 | the dict's keys, in insertion order, are the nodes; each holds the number of its shards with `prirep == 'p'` and the number with any other value |
| `DemoQueries.TallyCountsEveryShard` | scripts/demo_queries.py:113-121 | summed over the nodes, primaries plus replicas is the number of shards: each shard is counted exactly once |
| `DemoQueries.StrLeTotal` | scripts/demo_queries.py:131 | any two strings are ordered one way or the other |
| `DemoQueries.StrLeTransitive` | scripts/demo_queries.py:131 | string order is transitive |
| `DemoQueries.SortShardsSpec` | scripts/demo_queries.py:131 | the detailed listing is a permutation of the shards, ascending by the pair (`shard`, `prirep`) compared as strings |
| `DemoQueries.SortShardsStable` | scripts/demo_queries.py:131 | `sorted` is stable: the shards with one key appear in the listing in the order the API returned them |
| `DemoQueries.MasterIndicator` | scripts/demo_queries.py:91 | the marker is `★` iff the node's `master` field is `*`, and a space otherwise |
| `DemoQueries.Truncate` | scripts/demo_queries.py:373-374 | the column is the whole text iff it fits the width, and otherwise its first `width` characters |
| `DemoQueries.SnapshotColumns` | scripts/demo_queries.py:373-374 | the indices joined by `', '` and the start time (`N/A` when absent) are each kept whole iff they fit 18 characters, and otherwise cut to their first 18 |

## Left out

- File reading and writing are not modelled: the JSON load and dump, `load_papers`, `load_index_mapping`, `save_papers_with_embeddings` and the output files. The filter starts from a sequence of lines that are already parsed or `Malformed`.
- The Kaggle download, the engine client set-up, environment variables, `ping`, logging, `print` formatting and `tqdm` are not modelled.
- The `input()` menu loops are not modelled. One answer is one parameter.
- The search engine is not computed. The bulk helper, refresh, index creation, the snapshot engine and the cat APIs are modelled as the requests sent and as outcomes passed in.
- `IngestData.Apply` models how the engine indexes by `_id`. It is not code of the repository.
- Embedding numerics are not computed. Vectors are opaque `seq<real>` values from `encode`; the embedding dimension and the MB size figures are not modelled.
- Sample titles use `str.title()`. The title-cased topics are written out as a table, not computed.
- `lower()` is modelled for ASCII letters only. The strings it is applied to here are compared with ASCII words.
- Python exceptions other than those described are not modelled. This covers a `KeyError` on a shard without `prirep`, a non-string JSON value where a string is expected, and a dump line that is valid JSON but not an object.
- `SetupSnapshots.Stamp` always zero-pads the year to four digits. Platforms differ for years before 1000; clock readings are restricted to valid dates with years 1 to 9999.
- `scripts/demo_queries.py:131` sorts the `shard` field as a string. `"10"` therefore sorts before `"2"`; the model keeps that order.
- `IngestData.ApplyOverwrites`: the code does not check that document ids differ across papers or batches; a repeated id overwrites the earlier document. A paper without an id gets `_id` `''`, which the engine rejects; that paper is not stored, and the bulk outcome passed in decides how it is counted.
- `IngestData.Apply` does not model the engine's other rejections of an index action, such as an over-long `_id` or a document that does not fit the mapping.
- `DemoQueries.SortShardsSpec`: the detailed listing of a shard whose `node` is `null` formats `None` with a width, which raises `TypeError` and ends the listing early; only the order of the listing is modelled.
- `SetupSnapshots.MenuRestoreSpec`: the engine reads `rename_pattern` as a regular expression. An index name with regular-expression metacharacters may not match itself, so the restored index may keep its name; the model states the request sent, not the engine's renaming.
