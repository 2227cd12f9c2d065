# addresses-importer: collision-pack deduplication and the OSM import buffer

This Dafny project models two sequential cores of the addresses-importer
repository and proves properties about them.

**Deduplicator** (`deduplicator/src/deduplicator.rs`). The steps are:

1. `insert` drops addresses that have no house number or whose number is "S/N".
2. Hashing workers rank and hash the addresses that remain.
3. `compute_duplicates` reads the `(id, hash, rank, address)` rows in hash order and groups them into runs of equal hash.
4. Runs of a single row are dropped. Each remaining collision pack goes to a worker.
5. The worker skips a pack longer than 5000. Otherwise it sorts the pack by `(rank, id)`, highest first, and keeps the head.
6. Every later item is sent for deletion when `is_duplicate(item, kept)` holds for an item kept so far, and is kept otherwise.
7. The writer collects the deleted ids into a set.

The threads and channels are left out. Packs are handled one after the other, and the result is the union of the per-pack deletions.

**OSM importer** (`importers/osm/src/lib.rs`). The steps are:

1. `import_addresses` reads an extract.
2. It keeps the nodes that have a tag key containing "addr:".
3. `Address::new` turns each kept node into an address from its `addr:*` tags.
4. The address is inserted through a bounded buffer.
5. `flush_buffer` tries each buffered address against the `addresses` table. Failures go to `addresses_errors`, with the error text stored as `kind`.

Some collaborators live outside the modelled files: `hash_address` and `is_duplicate` in the crate's `dedupe` module, the caller's closures, and the SQL engine. They become function-typed parameters with no properties assumed:

| parameter | what it stands for |
|---|---|
| `isDup(item, kept)` | `is_duplicate`; not assumed symmetric |
| `hashAddress` | `hash_address` |
| `filter`, `ranking` | the caller's filter and ranking closures |
| `engine(table, address)` | the SQL engine's verdict on one insert: `None` for success, the error text otherwise |

The model fixes only one rule for the engine: an address without a street is always rejected with SQLite's NOT NULL message.

Modules:

| module | contents |
|---|---|
| `Wrappers` | `Option` |
| `Seqs` | `Interleave`: each element of a sequence goes to exactly one of two sequences, and both keep the original order. Also `Select`, `Filter`, `Flatten` and their lemmas. |
| `Addresses` | the address record |
| `Grouping` | `group_by` runs and collision packs |
| `PackSort` | the descending `(rank, id)` order |
| `Elimination` | the greedy per-pack scan and its reference definition |
| `Deduplicator` | the insert filter, hashing stage, worker count and the overall deletion set |
| `OsmAddress` | tags to address, and the node filter |
| `OsmDb` | the buffer state machine |

## Model

| member | source | states |
|---|---|---|
| Deduplicator.WorkerCount | deduplicator/src/deduplicator.rs:70 | `max(3, cpus) - 2` never underflows `usize` and is at least 1. It is `cpus - 2` from three cores up and 1 below. Line 252 repeats the same expression. |
| Deduplicator.Insert | deduplicator/src/deduplicator.rs:335-344 | An address is dropped exactly when its number is missing or equals "S/N". Otherwise it is forwarded unchanged. |
| Deduplicator.Forwarded | deduplicator/src/deduplicator.rs:335-344 | Successive `insert` calls forward no more addresses than they receive, and each forwarded address is an input address with a real house number. |
| Deduplicator.ForwardedSplitsInput | deduplicator/src/deduplicator.rs:335-344 | Over a stream of inserts, the forwarded addresses and the dropped ones interleave to the input. The forwarded ones are exactly the addresses with a real house number, in input order. |
| Deduplicator.HashStage | deduplicator/src/deduplicator.rs:264-276 | Every record comes from an input address that has a house number and passes the filter, and carries that address's rank and hashes. Up to order, the records' addresses are exactly those addresses, each as often as it was inserted. |
| Grouping.Runs | deduplicator/src/deduplicator.rs:150-158 | Every run is non-empty, and the first run starts with the first row. |
| Grouping.RunsFlatten | deduplicator/src/deduplicator.rs:150-158 | Concatenating the runs gives back the row stream: nothing is lost, duplicated or reordered. |
| Grouping.RunsAreMaximal | deduplicator/src/deduplicator.rs:150-158 | Each run holds a single hash, and neighbouring runs hold different hashes. |
| Grouping.RunHeadsIncrease | deduplicator/src/deduplicator.rs:150-158 | On hash-sorted rows the run hashes strictly increase, so no hash is split over two runs. |
| Grouping.RunCollectsItsHash | deduplicator/src/deduplicator.rs:150-158 | On hash-sorted rows a run contains every row of its hash. |
| Grouping.Packs | deduplicator/src/deduplicator.rs:160-164 | Every pack sent to the workers is one of the runs, has at least two rows, and holds a single hash. |
| Grouping.CollidingItemsShareAPack | deduplicator/src/deduplicator.rs:150-164 | On hash-sorted rows, two distinct rows with equal hashes end up in the same pack. |
| PackSort.InsertDesc | deduplicator/src/deduplicator.rs:93-98 | Inserting into a sequence sorted by descending `(rank, id)` keeps it sorted and adds exactly the one item. |
| PackSort.SortPack | deduplicator/src/deduplicator.rs:93-98 | The sorted pack is non-increasing in `(rank, id)` and is a permutation of the pack. |
| PackSort.SortedHeadIsMaximum | deduplicator/src/deduplicator.rs:93-98 | The head of the sorted pack is at or above every item of the pack in `(rank, id)`. |
| Elimination.DeletionMarks | deduplicator/src/deduplicator.rs:102-116 | The scan gives one mark per item of the pack and never marks the head, which starts `kept_items`. Its meaning is the reference definition, by DeletionMarksAreGreedy and GreedyChoiceIsTheScan. |
| Elimination.DeletionMarksAreGreedy | deduplicator/src/deduplicator.rs:102-116 | The scan's marks meet the reference definition: an item is deleted exactly when an earlier kept item makes it a duplicate. |
| Elimination.GreedyMarksUnique | deduplicator/src/deduplicator.rs:102-116 | The reference definition fixes the marks: two mark sequences that both meet it are equal. |
| Elimination.GreedyChoiceIsTheScan | deduplicator/src/deduplicator.rs:102-116 | Any mark sequence that meets the reference definition is the scan's. |
| Elimination.AnyDuplicate | deduplicator/src/deduplicator.rs:105-107 | `any` over the kept items is true exactly when `isDup(item, k)` holds for some kept `k`. |
| Elimination.ScanStep | deduplicator/src/deduplicator.rs:104-115 | One loop iteration adds the next item to exactly one of the deleted and kept lists, chosen by the `any` test. |
| Elimination.Eliminate | deduplicator/src/deduplicator.rs:102-116 | The loop starting with the head in `kept_items` returns exactly the greedy choice's kept and deleted items, each list in pack order. |
| Elimination.GreedyHeadKept | deduplicator/src/deduplicator.rs:102 | The head of the pack is the first kept item. |
| Elimination.GreedyKeptIndependent | deduplicator/src/deduplicator.rs:105-115 | No kept item is a duplicate of any item kept before it. |
| Elimination.GreedyDeletedWitness | deduplicator/src/deduplicator.rs:105-112 | In a sorted pack every deleted item has a kept witness above it in `(rank, id)` of which it is a duplicate. |
| Elimination.ProcessPack | deduplicator/src/deduplicator.rs:82-116 | A pack is skipped exactly when it is longer than 5000. When it is processed, kept and deleted interleave to the sorted pack, so every item lands in exactly one of them in sorted order, and the first kept item is the pack's maximum. |
| Elimination.ProcessedSizes | deduplicator/src/deduplicator.rs:102-116 | For a processed pack, the number of kept items plus the number of deleted items equals the pack's length. |
| Elimination.ProcessedPartition | deduplicator/src/deduplicator.rs:102-116 | For a processed pack, the multisets of kept and deleted items add up to the pack's multiset: every item is kept or deleted, none twice, none lost. |
| Elimination.DeletedHaveWitness | deduplicator/src/deduplicator.rs:105-112 | Every item a processed pack deletes has a kept witness above it of which it is a duplicate. |
| Elimination.KeptAreIndependent | deduplicator/src/deduplicator.rs:105-115 | In a processed pack no kept item is a duplicate of a kept item before it. |
| Deduplicator.PackDeletedIds | deduplicator/src/deduplicator.rs:82-112 | A pack longer than 5000 deletes nothing. Every id a pack deletes belongs to one of its items. |
| Deduplicator.DeletedIds | deduplicator/src/deduplicator.rs:136-137 | An id is in the writer's set exactly when some pack deletes it. |
| Deduplicator.ComputeDuplicates | deduplicator/src/deduplicator.rs:150-170 | Every id to delete belongs to one of the input rows. |
| Deduplicator.PackDeletionIsJustified | deduplicator/src/deduplicator.rs:105-112 | An id deleted by a pack belongs to a deleted item of that processed pack, and that item has a kept witness. |
| Deduplicator.DeletedIdsAreJustified | deduplicator/src/deduplicator.rs:136-137 | Every id in the union is justified by one of the packs. |
| Deduplicator.DeletionIsJustified | deduplicator/src/deduplicator.rs:150-170 | Every id to delete comes from a collision pack of at most 5000 rows, where the greedy scan found a kept witness for it. |
| Deduplicator.DeletionIsComplete | deduplicator/src/deduplicator.rs:166-170 | Conversely, every item a processed collision pack deletes has its id in the result. |
| OsmAddress.ApplyTag | importers/osm/src/lib.rs:36-58 | A tag whose key belongs to a field sets exactly that field to the tag's value. Every other field and the coordinate are unchanged. |
| OsmAddress.OtherKeyChangesNothing | importers/osm/src/lib.rs:58 | A tag with any other key leaves the address as it was. |
| OsmAddress.LastValue | importers/osm/src/lib.rs:35-60 | Reference definition: there is no value exactly when no tag has the key. A value, when present, is that of the last tag with the key. |
| OsmAddress.ApplyTags | importers/osm/src/lib.rs:35-60 | The tag loop never touches the coordinate; what it leaves in each text field is stated by ApplyTagsLastWins. |
| OsmAddress.ApplyTagsLastWins | importers/osm/src/lib.rs:35-60 | The tag loop leaves in each field the value of the last tag with its key. A field whose key never appears keeps its previous value. |
| OsmAddress.Blank | importers/osm/src/lib.rs:23-33 | The starting address has the node's coordinate and all seven text fields empty. |
| OsmAddress.NewAddress | importers/osm/src/lib.rs:22-62 | `Address::new` copies `lat` and `lon`. Each field holds the value of its key's tag, or nothing when the node has no such tag. |
| OsmAddress.NewAddressReadsTag | importers/osm/src/lib.rs:35-57 | When tag keys are unique, as in a tag map, a field holds exactly the value of its key's tag. |
| OsmAddress.ContainsIff | importers/osm/src/lib.rs:271 | `contains` is substring search: it holds exactly when the pattern occurs at some position. |
| OsmAddress.SelectNodes | importers/osm/src/lib.rs:270-273 | Only nodes with a tag key containing "addr:" are taken, and every such node read is taken. Ways, relations, read errors and other nodes are skipped. |
| OsmAddress.SelectNodesKeepsOrder | importers/osm/src/lib.rs:270-273 | The selected nodes are, one for one and in reading order, the read items that pass the filter: none is reordered, merged or repeated. |
| OsmDb.NewDb | importers/osm/src/lib.rs:115-119 | A new handle keeps the requested buffer size and meets the handle invariant with nothing inserted yet: empty buffer and empty tables, given that the old file was removed. |
| OsmDb.FlushRows | importers/osm/src/lib.rs:143-163 | Each pending address produces exactly one row, in `addresses` or in the failures, so the two counts add up to the buffer's length. |
| OsmDb.FlushRowsSplits | importers/osm/src/lib.rs:143-163 | Inserted rows and failed rows interleave to the buffer: each address lands in exactly one, in buffer order. No inserted row lacks a street, and every street-less failure carries the NOT NULL text. Which way each address goes is stated by FlushRowsFollowsEngine and FlushRowsSnoc. |
| OsmDb.FlushRowsFollowsEngine | importers/osm/src/lib.rs:143-163 | The split is the engine's: every row inserted into `addresses` was accepted by the engine against the table plus the rows inserted before it, and every failed address is recorded with the engine's own error text as `kind`. |
| OsmDb.Flush | importers/osm/src/lib.rs:122-200 | Flushing empties the buffer and keeps the buffer size. Flushing an empty buffer changes nothing, which covers the flush in `Drop` after `import_addresses`. |
| OsmDb.FlushSplitsBuffer | importers/osm/src/lib.rs:143-196 | Flushing only appends to both tables. The appended rows split the buffer: each address lands in exactly one table, in buffer order. |
| OsmDb.FlushFollowsEngine | importers/osm/src/lib.rs:143-163 | On the handle: the rows a flush appends to `addresses` were each accepted by the engine in turn, and the rows it appends to `addresses_errors` carry the engine's error texts. |
| OsmDb.FlushRowsAppend | importers/osm/src/lib.rs:143-163 | Flushing two lists in one go gives the same rows as flushing the first, then the second against the table grown by the first's inserts. |
| OsmDb.FlushRowsSnoc | importers/osm/src/lib.rs:143-163 | Each address is tried against the table plus exactly the rows inserted before it. It is inserted when the engine accepts it there; otherwise it is recorded with the engine's error text for it there. |
| OsmDb.FlushExtendsSplit | importers/osm/src/lib.rs:143-196 | If the tables split some earlier addresses, after a flush they split those addresses followed by the buffer, and both table invariants still hold. |
| OsmDb.Insert | importers/osm/src/lib.rs:202-207 | `insert` keeps the buffer size. While the buffer plus the new address stays below the size, it only appends the address and leaves both tables alone. Once it reaches the size, the buffer is flushed empty, so with a size of at least 1 the buffer stays shorter than the size. |
| OsmDb.FlushAccounts | importers/osm/src/lib.rs:122-200 | Flushing keeps the handle's invariant: the buffer holds the newest inserted addresses, and the older ones are split in order between the tables. |
| OsmDb.InsertAccounts | importers/osm/src/lib.rs:202-207 | `insert` keeps the same invariant, with the address added to the log of inserted addresses. |
| OsmDb.InsertAll | importers/osm/src/lib.rs:270-275 | Inserting a list keeps the buffer size, and with a size of at least 1 leaves the buffer shorter than it. |
| OsmDb.InsertAllAccounts | importers/osm/src/lib.rs:270-275 | Inserting a list keeps the invariant, with the list added to the log. |
| OsmDb.FlushAsOne | importers/osm/src/lib.rs:122-200 | After a flush, the tables are still exactly what one unbuffered flush of every address that has left the buffer would produce. |
| OsmDb.InsertAsOne | importers/osm/src/lib.rs:202-207 | `insert` keeps the tables equal to one unbuffered flush, with the address added to the log. |
| OsmDb.InsertAllAsOne | importers/osm/src/lib.rs:270-275 | A list of inserts keeps the tables equal to one unbuffered flush, with the list added to the log. |
| OsmDb.ImportAddresses | importers/osm/src/lib.rs:260-278 | After the import the buffer is empty. The addresses of the selected nodes are split between `addresses` and `addresses_errors` in reading order, `addresses` has no row without a street, and every street-less error row has the NOT NULL kind. |
| OsmDb.ImportIsOneFlush | importers/osm/src/lib.rs:260-278 | Buffering makes no difference: the import leaves in `addresses` and `addresses_errors` exactly the rows that a single pass would leave, trying the selected addresses in reading order, each against the rows inserted before it. |
| OsmDb.ImportCounts | importers/osm/src/lib.rs:260-278 | The two tables together hold one row per selected node. |
| OsmDb.MissingStreetIsAnError | importers/osm/src/lib.rs:143-163 | A selected node without a street always ends up in `addresses_errors`, with the NOT NULL error as its kind. |

## Left out

- Threads, channels, the writer threads and the `Drop` joins of the deduplicator are left out. Packs are processed sequentially, and the deletion set is the union of the per-pack sets, which is what the writer's `HashSet` collects.
- `DbHashes` and its queries are not part of this model. This covers id assignment, the sorted-hash query, the hash index, the `to_delete` table, `apply_and_clean`, and the constraint-violation filtering of the writers. The rows arrive as a sequence of `(hash, rank, id, address)` items.
- Rows of the sorted-hash query that fail to load are logged and skipped before grouping (deduplicator.rs lines 154-157). The items are the rows that loaded successfully.
- `hash_address`, `is_duplicate` (module `dedupe`), the caller's filter and ranking, and the SQL engine are parameters. No property of them is assumed beyond the NOT NULL street rule.
- `importer_tools::Address` is not part of this model. The deduplicator's address is assumed to have the same fields as the OSM importer's.
- `rank` is an `f64` in the source and an `int` here. The NaN fallback of the comparator at deduplicator.rs:96 is not modelled.
- PackSort.SortPack: fixes one order for items with equal `(rank, id)`, where `sort_unstable_by` may choose any. Ids are row ids, so such ties do not arise in practice.
- The `eprintln!` diagnostics are left out (deduplicator.rs lines 87, 140, 155, 270, 298 and 305). They print and change no state.
- The `hash as i64` cast at deduplicator.rs:295 is not modelled. Hashes are plain integers, both in `HashRecord` and in the rows' `hash` field.
- Coordinates are `f64` in the source and `real` here. They are only copied, never computed with.
- `openaddress_dump` is left out: gzip, CSV writing and file creation.
- PBF decoding, opening the extract and removing the database file are left out. The extract is a sequence of read results.
- OsmDb.NewDb: the `remove_db_data` flag and table creation are left out, and the handle starts with both tables empty. The source ignores a failure to remove the old file (importers/osm/src/lib.rs:73), and then `CREATE TABLE IF NOT EXISTS` keeps the old rows. The model assumes the removal succeeded. FlushAccounts and InsertAllAccounts do not depend on this: they hold for any starting tables.
- Transactions and commit are left out. A flush is modelled as applying all its rows at once. The prepares, the inserts into `addresses_errors` and the commit are taken to succeed; in the source a failure there panics (importers/osm/src/lib.rs lines 123, 141, 180, 195 and 199).
- OsmDb.FlushRowsFollowsEngine, OsmDb.FlushFollowsEngine: for an error row they state only that `kind` is the engine's text for that address against the table plus some prefix of the inserted rows, not which prefix. The exact prefix, namely the rows inserted before that address, is stated by FlushRowsSnoc for a flush and by ImportIsOneFlush for the whole import.
- The counting queries `get_nb_cities`, `get_nb_addresses`, `get_nb_errors` and `get_nb_by_errors_kind` are left out. `get_nb_cities` returns only the first row of a `GROUP BY`, so it is not a city count.
- Primary-key uniqueness of `addresses` is left inside the engine, because SQLite lets rows whose key holds NULL bypass it.
- The CLI in `importers/openaddresses/src/main.rs` is left out: argument checking and printing around a crate that is not part of this model.
- `get_nb_cities` and the other `CompatibleDB` counters of the deduplicator's inserter are left out, as is `flush`, which does nothing there.
