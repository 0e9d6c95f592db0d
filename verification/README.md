# mdbx-containers: a verified model of the table layer

mdbx-containers is a C++ library of typed tables over libmdbx, an ordered byte-keyed
store. This project models the tables whose storage format does real work: a hash
index kept beside a record table, multi-value tables ordered by hidden prefixes, an
order-preserving tuple codec, change logs that a replica replays, an identifier
allocator, a tag frame, and the two-thread pull handshake of the threaded transport
example. Each one is proved against a plain mathematical view (a map, a multiset, a map
to sequences, a set, the tuple order, a log prefix), for every input and every run.

## How the model is laid out

- `OrderedStore` is the substrate: a DBI is a strictly sorted sequence of (key, value)
  entries under any strict total order of keys, with or without sorted duplicates, and a
  cursor is a value with an "erased here" state. It is what is assumed of libmdbx:
  duplicates compare bytewise, NEXT and NEXT_DUP after a cursor delete give the old
  successor, LAST_DUP succeeds on a key with one value, SET_RANGE seeks to the first key
  not below the bound. Integer keys compare as little-endian numbers.
- `HashedRecords`, `LargeAgreement`, `LargeStore`, `SmallStore`, `HashedLayouts`: the two
  layouts of HashedKeyValueStore. `HashedLaws`: what their plain map means, key by key.
  `Orphans`: what a refused index entry leaves behind.
- `Prefixed`, `PairLog`, `PairReconcile`, `DupScan`, `KeyMultiValue`,
  `MultiValueReplica`: KeyMultiValueTable and a replica of its logical change stream.
- `KeyOrdered`, `OrderedRuns`: KeyOrderedMultiValueTable.
- `RangeScan`: the range loops shared by the tables. `RawLog`, `KeyTables`, `KeyRuns`,
  `SequenceTables`, `SequenceRuns`: KeyTable and SequenceTable with their raw change log.
- `CompositeKeys`, `CompositeOrder`: the codec, and its order in terms of integers, byte
  strings and the real numbers that IEEE 754 patterns stand for.
- `AnyValues`, `TableSequences`: the frame and the allocator.
- `PullWires`, `PullHistory`, `PullWakeups`: the handshake, what it has carried over, and
  its condition variable on top.

Each run result is stated against a plain value (a map, a set, a multiset) that a function
computes call by call. What such a function means is stated apart from it, in terms of
keys, values and numbers alone: `HashedLaws`, `CompositeOrder`, `PullHistory`, and the
members named CallMeans, AppendMeans, SlotMeans or AppliedMeans.

The multi-value results speak of room: a table has room for some pairs when its largest
stored prefix leaves as many numbers below 2^64 as there are pairs, and every pair is
within the configured size limit. A caller can check it before a run.

Serialized keys and values are byte strings. A hasher is an arbitrary function to a
64-bit number, so the results hold for one that always collides. Configuration limits
are constructor parameters. The clock in the writer's serving loop becomes the freedom
to take or not take a step, and its deadlines become wake-ups that may come at any time.
Errors the code throws are results. Branches that report a corrupted store are in the
model; those of the hashed store are unreachable while its two DBIs agree, which every
run keeps with a duplicate-size limit outside 1 to 7 bytes (`HashedLayouts.RunLarge`).

## What the proofs found

- A record and its index entry are written with a size check in between. With a
  configured duplicate-size limit of 1 to 7 bytes the check refuses the eight-byte index
  entry after the record is already in. A transaction the library opened itself is rolled
  back; a caller's own transaction can go on, and then holds a record no lookup finds.
  `Orphans.OrphanRecord` is that run, and `Orphans.InsertOrphansIff` says exactly when an
  insert does it, in terms a caller can check before the call. Opened again with any
  limit, such a store refuses every further key of that hash, and no source can be
  reconciled into it: a key of the source is refused, or the deleting scan meets the
  record and throws "index entry is missing" (`Orphans.OrphanBlocksBucket`,
  `Orphans.OrphanBlocksReconcile`). The record is counted although it cannot be found
  (`Orphans.OrphanIsCounted`). Clearing repairs the store (`Orphans.ClearRepairs`).
- Decoding an encoded composite key gives the key back bit for bit exactly when no
  floating point part is negative zero, which comes back as positive zero
  (`CompositeKeys.RoundTrip`, `CompositeKeys.NegativeZeroIsLost`). The two zeros are equal
  under `operator==`, so under it every key that encodes comes back
  (`CompositeKeys.RoundTripEqual`).
- `TableSequence::reserve` checks for a previous value of 2^64 - 1 after the store has
  already refused the overflow: that branch is never taken. Nor are the "missing record"
  and "ordinal already exists" branches of the hashed store, orphans or not. Its "index
  entry is missing" branch and the refusal of a record key already present are taken only
  when the two DBIs disagree. Under the cursor contract above the reverse scan's fallback
  for a LAST_DUP that finds nothing is dead too, and is left out.
- Little-endian ordinals do not sort as numbers, so the bucket scan of `next_ordinal`
  cannot be replaced by a look at the last duplicate; the big-endian prefixes of the
  multi-value tables can (`ByteStrings.LittleEndianIsNotOrdered`, `Prefixed.LastIsLargest`).

Where the code and its comments differ the model follows the code.

## Model

| member | source | states |
|---|---|---|
| ByteStrings.BigEndianOrder | include/mdbx_containers/KeyMultiValueTable.hpp:1175-1191 | big-endian bytes of equal width sort bytewise exactly as the numbers do |
| ByteStrings.LittleEndianIsNotOrdered | include/mdbx_containers/HashedKeyValueStore.hpp:365-401 | little-endian ordinals do not: 256 sorts before 1, hence the full bucket scan |
| ByteStrings.LexLessExact | include/mdbx_containers/KeyMultiValueTable.hpp:1175-1191 | bytewise order without recursion: equal up to some place, where the first string ends or has the smaller byte |
| ByteStrings.EncodeBigEndian | include/mdbx_containers/CompositeKey.hpp:30-38 | the shifting loop writes the big-endian digits of the value |
| ByteStrings.DecodeBigEndian | include/mdbx_containers/CompositeKey.hpp:40-51 | the or-ing loop reads back their value |
| ByteStrings.WriteLittleEndian | include/mdbx_containers/HashedKeyValueStore.hpp:165-177 | the shifting loop writes the little-endian digits |
| ByteStrings.LittleEndianDigits | include/mdbx_containers/HashedKeyValueStore.hpp:165-177 | eight little-endian bytes digit by digit, each with its power of 256 |
| ByteStrings.BigEndianReversed | include/mdbx_containers/CompositeKey.hpp:30-51 | big-endian bytes have the same digits from the other end |
| ByteStrings.ReadLittleEndian | include/mdbx_containers/AnyValueTable.hpp:514-519 | the or-ing loop reads back their value, below the width's bound |
| HashedRecords.RecordExact | include/mdbx_containers/HashedKeyValueStore.hpp:237-255 | a record parses to a key and value exactly when it is the payload made of them: parsing and making are inverse on all byte strings |
| HashedRecords.PayloadLayout | include/mdbx_containers/HashedKeyValueStore.hpp:299-312 | the payload's size, and where the key's length, the key and the value stand |
| HashedRecords.MakePayload | include/mdbx_containers/HashedKeyValueStore.hpp:299-312 | builds the length-prefixed payload that RecordExact speaks of |
| HashedRecords.Parse | include/mdbx_containers/HashedKeyValueStore.hpp:237-255 | the byte-level parser computes the parse RecordExact speaks of |
| HashedRecords.RecordKeyRoundTrip | include/mdbx_containers/HashedKeyValueStore.hpp:197-214 | decoding a record key gives back its hash and ordinal |
| HashedRecords.RecordKeyInjective | include/mdbx_containers/HashedKeyValueStore.hpp:197-202 | two record keys are equal exactly when hash and ordinal are |
| HashedRecords.DecodeRecordKey | include/mdbx_containers/HashedKeyValueStore.hpp:204-214 | accepts exactly sixteen bytes, which are the record key of what it returns |
| HashedRecords.RestrictToSource | include/mdbx_containers/HashedKeyValueStore.hpp:583-624 | writing a source over any map and dropping what it does not name leaves the source's map |
| HashedRecords.LastWins | include/mdbx_containers/HashedKeyValueStore.hpp:576-624 | a batch gives a key the value of its last occurrence, and only occurring keys get one |
| HashedLaws.CallMeans | include/mdbx_containers/HashedKeyValueStore.hpp:475-638 | each call key by key: insert keeps a value that is there, insert_or_assign replaces it, erase and clear remove it |
| HashedLaws.BatchMeans | include/mdbx_containers/HashedKeyValueStore.hpp:576-624 | append and reconcile key by key; keys not named stay on append and go on reconcile |
| HashedLaws.RunMeans | include/mdbx_containers/HashedKeyValueStore.hpp:449-638 | in a run every call is answered from the map the calls before it left |
| HashedLaws.LastWriteWins | include/mdbx_containers/HashedKeyValueStore.hpp:449-638 | after a call about a key and any calls about others, get answers what that call left |
| HashedLaws.TwiceMeans | include/mdbx_containers/HashedKeyValueStore.hpp:475-513 | a second insert of a key changes nothing, a second assignment replaces, a second erase finds nothing |
| HashedLaws.BatchesMean | include/mdbx_containers/HashedKeyValueStore.hpp:576-638 | all that is listed after an append, a reconcile or a clear |
| LargeAgreement.AgreeCount | include/mdbx_containers/HashedKeyValueStore.hpp:515-519 | when records and index agree with a map, the map, the records and the index have one size |
| LargeAgreement.IndexedIffOwned | include/mdbx_containers/HashedKeyValueStore.hpp:427-437 | with the map's keys stored and indexed and nothing else indexed, a record has its index entry exactly when it is the record of a key of the map |
| LargeStore.LargeValuesStore.FindRecord | include/mdbx_containers/HashedKeyValueStore.hpp:314-363 | walking the bucket finds the key's own record, for every hasher, exactly when the map has the key; no index entry lacks its record |
| LargeStore.LargeValuesStore.BucketMax | include/mdbx_containers/HashedKeyValueStore.hpp:365-401 | the scan returns the largest ordinal of the bucket, and whether there is any |
| LargeStore.LargeValuesStore.NextOrdinal | include/mdbx_containers/HashedKeyValueStore.hpp:365-401 | the ordinal is above every live one of the bucket; refused exactly when the largest is in use |
| LargeStore.LargeValuesStore.PutNewRecord | include/mdbx_containers/HashedKeyValueStore.hpp:439-447 | a new record and its index entry extend the map by the pair; each refusal exactly under its condition: the bucket's ordinals used up, the record key taken by an orphan, or a positive limit below the eight bytes of an index entry, which leaves the record behind and is the only way out of agreement |
| LargeStore.LargeValuesStore.PutRecord | include/mdbx_containers/HashedKeyValueStore.hpp:403-412 | overwriting a record in place changes the map at its key and nothing else |
| LargeStore.LargeValuesStore.DeleteIndexEntry | include/mdbx_containers/HashedKeyValueStore.hpp:427-437 | exactly the one index entry goes; reported missing exactly when it is not there, and then nothing changes |
| LargeStore.LargeValuesStore.Get | include/mdbx_containers/HashedKeyValueStore.hpp:449-466 | the map's value, or nothing |
| LargeStore.LargeValuesStore.Contains | include/mdbx_containers/HashedKeyValueStore.hpp:468-473 | whether the map has the key |
| LargeStore.LargeValuesStore.InsertIfAbsent | include/mdbx_containers/HashedKeyValueStore.hpp:475-484 | a key that is there keeps its value and false is answered, a new one gets the value; refused only for a new key, each refusal exactly under its condition, and never for size without a positive limit |
| LargeStore.LargeValuesStore.InsertOrAssign | include/mdbx_containers/HashedKeyValueStore.hpp:486-495 | the map with the key set; each refusal exactly under its condition, the map unchanged |
| LargeStore.LargeValuesStore.Erase | include/mdbx_containers/HashedKeyValueStore.hpp:497-513 | the map without the key, and whether it was there; record and index entry go together |
| LargeStore.LargeValuesStore.Count | include/mdbx_containers/HashedKeyValueStore.hpp:515-519 | the record count; it is the map's size exactly when the two DBIs agree, and more otherwise |
| LargeStore.LargeValuesStore.Load | include/mdbx_containers/HashedKeyValueStore.hpp:545-566 | every pair of the map once and no other |
| LargeStore.LargeValuesStore.AppendAll | include/mdbx_containers/HashedKeyValueStore.hpp:576-581 | the map merged with the batch, last occurrence winning; it stops only at a new key that must be refused |
| LargeStore.LargeValuesStore.EraseStale | include/mdbx_containers/HashedKeyValueStore.hpp:597-624 | deleting under the scanning cursor succeeds exactly when every record parses and is named or indexed, always in agreement; it then has visited every stored record once and in order, keeps exactly the wanted keys and keeps agreement |
| LargeStore.LargeValuesStore.ReconcileWith | include/mdbx_containers/HashedKeyValueStore.hpp:583-624 | afterwards the map is the source's, last occurrence winning; in agreement it fails only at a new key that must be refused, and with an orphan it never succeeds |
| LargeStore.LargeValuesStore.ClearAll | include/mdbx_containers/HashedKeyValueStore.hpp:635-638 | the empty map, in agreement, whatever the two DBIs held |
| Orphans.OrphanRecord | include/mdbx_containers/HashedKeyValueStore.hpp:414-447 | with a limit of 1 to 7 the refused insert on an empty store leaves a record and no index entry |
| Orphans.InsertOrphansIff | include/mdbx_containers/HashedKeyValueStore.hpp:439-447 | inserting a new key into a store in agreement leaves an orphan exactly when the limit is 1 to 7 and the bucket has an ordinal left, and agreement is lost exactly then |
| Orphans.OrphanIsCounted | include/mdbx_containers/HashedKeyValueStore.hpp:449-519 | an orphan is counted although its key is neither found nor contained |
| Orphans.OrphanBlocksBucket | include/mdbx_containers/HashedKeyValueStore.hpp:439-495 | opened again with any limit, every insert and upsert of a new key with the orphan's hash is refused at the record write and changes nothing |
| Orphans.OrphanBlocksReconcile | include/mdbx_containers/HashedKeyValueStore.hpp:583-624 | opened again with any limit, no source can be reconciled: a new key is refused, or the deleting scan reports a missing index entry, the latter for every source that names stored keys only |
| Orphans.ClearRepairs | include/mdbx_containers/HashedKeyValueStore.hpp:635-638 | clearing an orphaned store gives a valid empty one |
| SmallStore.DupsCount | include/mdbx_containers/HashedKeyValueStore.hpp:960-964 | one duplicate per key of the map, for every hasher |
| SmallStore.SmallValuesStore.FindDup | include/mdbx_containers/HashedKeyValueStore.hpp:833-870 | the bucket walk stops on the key's own duplicate exactly when the map has the key |
| SmallStore.SmallValuesStore.PutDuplicate | include/mdbx_containers/HashedKeyValueStore.hpp:872-892 | refused exactly when the limit is positive and the payload's bytes are more; the "already exists" branch is not reachable |
| SmallStore.SmallValuesStore.Get | include/mdbx_containers/HashedKeyValueStore.hpp:894-905 | the map's value, or nothing |
| SmallStore.SmallValuesStore.Contains | include/mdbx_containers/HashedKeyValueStore.hpp:907-916 | whether the map has the key |
| SmallStore.SmallValuesStore.InsertIfAbsent | include/mdbx_containers/HashedKeyValueStore.hpp:918-930 | a key that is there keeps its value and false is answered, a new one gets the value; refused exactly when new and its payload's bytes are more than a positive limit |
| SmallStore.SmallValuesStore.InsertOrAssign | include/mdbx_containers/HashedKeyValueStore.hpp:932-945 | the map with the key set, or unchanged when too large |
| SmallStore.SmallValuesStore.Erase | include/mdbx_containers/HashedKeyValueStore.hpp:947-958 | the map without the key, and whether it was there |
| SmallStore.SmallValuesStore.Count | include/mdbx_containers/HashedKeyValueStore.hpp:960-964 | the duplicate count is the map's size |
| SmallStore.SmallValuesStore.Load | include/mdbx_containers/HashedKeyValueStore.hpp:990-1011 | every pair of the map once and no other |
| SmallStore.SmallValuesStore.AppendAll | include/mdbx_containers/HashedKeyValueStore.hpp:1021-1026 | the map merged with the batch, exactly when no payload is more than a positive limit; otherwise up to the pair refused |
| SmallStore.SmallValuesStore.EraseStale | include/mdbx_containers/HashedKeyValueStore.hpp:1041-1068 | visits every duplicate once although it deletes under the cursor, and keeps exactly the wanted keys |
| SmallStore.SmallValuesStore.ReconcileWith | include/mdbx_containers/HashedKeyValueStore.hpp:1028-1068 | afterwards the map is the source's, exactly when no payload is more than a positive limit |
| SmallStore.SmallValuesStore.ClearAll | include/mdbx_containers/HashedKeyValueStore.hpp:1079-1081 | the empty map |
| HashedLayouts.RunLarge | include/mdbx_containers/HashedKeyValueStore.hpp:314-638 | every run of public calls answers as the plain map of HashedLaws and ends as it, for every hasher, short of 2^64 ordinals handed out, with any limit outside 1 to 7 |
| HashedLayouts.RunSmall | include/mdbx_containers/HashedKeyValueStore.hpp:833-1081 | every run answers as the plain map of HashedLaws and ends as it, without a limit always and under a positive one when no payload is more than it |
| HashedLayouts.LayoutsAgree | include/mdbx_containers/HashedKeyValueStore.hpp:314-1081 | two stores, one of each layout, that stand for the same map give equal answers on every such run, whole listings included, whatever their hashers, and stand for the same map again |
| HashedLayouts.FreshLayoutsAgree | include/mdbx_containers/HashedKeyValueStore.hpp:314-1081 | in particular two new stores |
| HashedLayouts.UnlimitedLayoutsAgree | include/mdbx_containers/HashedKeyValueStore.hpp:314-1081 | with no positive limit, the default, any run short of 2^64 pairs written gives equal answers |
| RangeScan.RangeExact | include/mdbx_containers/KeyMultiValueTable.hpp:1316-1345 | in a sorted DBI the seek-and-stop range is what testing every entry selects |
| RangeScan.CutExact | include/mdbx_containers/KeyMultiValueTable.hpp:1729-1757 | cutting that contiguous range is keeping every entry outside it |
| RangeScan.RangeMembers | include/mdbx_containers/KeyMultiValueTable.hpp:1316-1345 | what is in a range, both bounds included, and what is outside it |
| RangeScan.RangeIsRun | include/mdbx_containers/KeyMultiValueTable.hpp:1729-1757 | in a sorted DBI a range is one run of the entries, and outside it is the rest in order |
| RangeScan.Forward | include/mdbx_containers/KeyMultiValueTable.hpp:1316-1345 | the forward loop returns exactly the entries inside the inclusive range, in order; none for inverted bounds |
| RangeScan.Backward | include/mdbx_containers/KeyMultiValueTable.hpp:1633-1680 | the PREV loop from the last entry returns the exact reversal, or its prefix of the limit's length |
| RangeScan.CutRange | include/mdbx_containers/KeyMultiValueTable.hpp:1729-1757 | delete-then-NEXT removes exactly the range, keeps the rest in order, and returns what counting would have |
| RangeScan.CountRange | include/mdbx_containers/KeyMultiValueTable.hpp:1700-1727 | the number of entries in the range |
| RangeScan.ContainsRange | include/mdbx_containers/KeyMultiValueTable.hpp:1682-1698 | one seek tells whether any entry is in the range |
| Prefixed.PrefixOrder | include/mdbx_containers/KeyMultiValueTable.hpp:1175-1191 | stored values sort by their hidden prefix first, whatever the value bytes |
| Prefixed.StoredParts | include/mdbx_containers/KeyMultiValueTable.hpp:1181-1239 | decoding the prefix and stripping it give back the sequence number and the value |
| Prefixed.LastIsLargest | include/mdbx_containers/KeyMultiValueTable.hpp:1262-1281 | the last duplicate of a key has the largest prefix |
| Prefixed.NextPrefix | include/mdbx_containers/KeyMultiValueTable.hpp:1262-1281 | a new prefix is above every live one of its key and one above the largest; refused exactly when 2^64 - 1 is in use |
| Prefixed.RoomMeans | include/mdbx_containers/KeyMultiValueTable.hpp:1262-1281 | room, in terms of the stored prefixes and the byte sizes a caller can look at |
| Prefixed.AppendPosition | include/mdbx_containers/KeyMultiValueTable.hpp:1852-1863 | under such a prefix the store puts the entry after all entries of its key |
| DupScan.FindValues | include/mdbx_containers/KeyMultiValueTable.hpp:1865-1884 | SET_KEY then NEXT_DUP returns the key's values in stored order |
| DupScan.CountPair | include/mdbx_containers/KeyMultiValueTable.hpp:1924-1949 | the pair's multiplicity |
| DupScan.ErasePair | include/mdbx_containers/KeyMultiValueTable.hpp:1966-1998 | deleting under the duplicate cursor drops every copy of the pair, keeps all else in order, returns the multiplicity |
| DupScan.FindPair | include/mdbx_containers/KeyMultiValueTable.hpp:2000-2031 | the duplicate loop stops on the earliest copy of the pair, exactly when there is one |
| PairReconcile.SurvivorsPairs | include/mdbx_containers/KeyMultiValueTable.hpp:1798-1841 | keeping the earliest wanted copies leaves the common part of stored and wanted |
| PairReconcile.EarliestSurvive | include/mdbx_containers/KeyMultiValueTable.hpp:1798-1829 | an entry survives exactly when fewer copies of its pair stand before it than are wanted, and is deleted otherwise |
| PairReconcile.MissingPairs | include/mdbx_containers/KeyMultiValueTable.hpp:1798-1841 | the pairs inserted from a prefix of the source are its common part with the shortfall |
| PairReconcile.ReconciledPairs | include/mdbx_containers/KeyMultiValueTable.hpp:1798-1841 | kept plus inserted is the source's multiset, and exactly the shortfall is inserted |
| PairReconcile.FewestEdits | include/mdbx_containers/KeyMultiValueTable.hpp:1798-1841 | no way to turn stored into wanted removes or adds fewer pairs |
| PairReconcile.CollectDesired | include/mdbx_containers/KeyMultiValueTable.hpp:1787-1796 | the count map has each source pair's multiplicity |
| KeyMultiValue.KeyMultiValueTable.Find | include/mdbx_containers/KeyMultiValueTable.hpp:1865-1884 | the key's values in insertion order of what is stored |
| KeyMultiValue.KeyMultiValueTable.CountPair | include/mdbx_containers/KeyMultiValueTable.hpp:1924-1949 | the pair's multiplicity in the table's multiset |
| KeyMultiValue.KeyMultiValueTable.Range | include/mdbx_containers/KeyMultiValueTable.hpp:1316-1345 | the pairs whose key is in the range, in order |
| KeyMultiValue.KeyMultiValueTable.ReverseStart | include/mdbx_containers/KeyMultiValueTable.hpp:1592-1631 | past the end, above the bound, or on a key with many duplicates: the start seek lands on the last entry of the range or on nothing |
| KeyMultiValue.KeyMultiValueTable.RangeReverse | include/mdbx_containers/KeyMultiValueTable.hpp:1633-1680 | the exact reversal of range; with a limit its prefix of that length |
| KeyMultiValue.KeyMultiValueTable.LowerBound | include/mdbx_containers/KeyMultiValueTable.hpp:1414-1427 | the first pair not below the key, or nothing exactly when all are |
| KeyMultiValue.KeyMultiValueTable.UpperBound | include/mdbx_containers/KeyMultiValueTable.hpp:1429-1451 | the first pair above the key, or nothing exactly when none is |
| KeyMultiValue.KeyMultiValueTable.Insert | include/mdbx_containers/KeyMultiValueTable.hpp:1852-1863 | the pair goes behind its key's run under prefix zero or one above a live one, nothing else moves, one insert is recorded; each refusal exactly under its condition |
| KeyMultiValue.KeyMultiValueTable.AppendAll | include/mdbx_containers/KeyMultiValueTable.hpp:1767-1772 | stores and records exactly the batch, or its part before a pair that must be refused, behind what each key had and in batch order |
| KeyMultiValue.KeyMultiValueTable.EraseAllOf | include/mdbx_containers/KeyMultiValueTable.hpp:1951-1964 | exactly the key's entries go; recorded exactly when there were any |
| KeyMultiValue.KeyMultiValueTable.ErasePair | include/mdbx_containers/KeyMultiValueTable.hpp:1966-1998 | every copy of the pair goes, the rest in order; recorded once exactly when there was one |
| KeyMultiValue.KeyMultiValueTable.EraseOne | include/mdbx_containers/KeyMultiValueTable.hpp:2000-2031 | the earliest copy of the pair goes; recorded exactly when there was one |
| KeyMultiValue.KeyMultiValueTable.EraseRange | include/mdbx_containers/KeyMultiValueTable.hpp:795-806 | refused exactly under a logical capture; otherwise what CutRange states |
| KeyMultiValue.KeyMultiValueTable.Clear | include/mdbx_containers/KeyMultiValueTable.hpp:2033-2038 | empty, recorded as one clear |
| KeyMultiValue.KeyMultiValueTable.EraseSurplus | include/mdbx_containers/KeyMultiValueTable.hpp:1804-1829 | the deleting scan keeps the earliest wanted copies with their prefixes untouched and records exactly the deleted pairs in store order |
| KeyMultiValue.KeyMultiValueTable.InsertMissing | include/mdbx_containers/KeyMultiValueTable.hpp:1831-1840 | inserts and records the shortfall in source order, behind the survivors of each key; stops only at a pair it must refuse |
| KeyMultiValue.KeyMultiValueTable.Reconcile | include/mdbx_containers/KeyMultiValueTable.hpp:1774-1841 | the table holds exactly the source's multiset; survivors are the earliest copies, new ones follow in source order, both edits have the least possible size, and the recorded stream is the surplus erases and then the inserts; when a pair must be refused it says which and what is stored then |
| MultiValueReplica.Step | include/mdbx_containers/KeyMultiValueTable.hpp:1774-2038 | a public mutation of a captured table does to the multiset what it means, short only of a pair it must refuse, and records exactly the changes that say so |
| MultiValueReplica.TraceFull | include/mdbx_containers/KeyMultiValueTable.hpp:1262-1281 | when prefixes and the size limit leave room for everything a run offers, no call of it falls short |
| MultiValueReplica.Run | include/mdbx_containers/KeyMultiValueTable.hpp:1774-2038 | every call of a run does what it means and the log is what the calls record; with room for everything offered the final multiset is the calls' own meaning |
| MultiValueReplica.CallMeans | include/mdbx_containers/KeyMultiValueTable.hpp:1774-2038 | each call of a run, by the multiplicity of every pair, and the pair it was refused at if it fell short |
| PairLog.AppliedMeans | include/mdbx_containers/sync/logical/adapters/KeyMultiValueTableLogicalAdapter.hpp:525-572 | each recorded change, by the multiplicity of every pair |
| MultiValueReplica.Apply | include/mdbx_containers/sync/logical/adapters/KeyMultiValueTableLogicalAdapter.hpp:525-572 | a recorded change applied through the table's own operation has its multiset meaning; only an insert is refused, exactly when the replica must |
| MultiValueReplica.Replay | include/mdbx_containers/sync/logical/adapters/KeyMultiValueTableLogicalAdapter.hpp:525-572 | the replica's multiset is the stream's meaning up to where it stops, which is only at an insert it must refuse; with room for the inserts it takes every change |
| MultiValueReplica.ReplicaConverges | include/mdbx_containers/KeyMultiValueTable.hpp:1774-2038 | a replica with the same pairs, in any per-key order, replays all a captured run recorded and ends with the source's pairs, or stops at an insert it must refuse; with room on both sides both end with what the calls mean |
| KeyOrdered.AppendedValues | include/mdbx_containers/KeyOrderedMultiValueTable.hpp:666-671 | a batch extends every key by its own values in batch order |
| KeyOrdered.ViewMeans | include/mdbx_containers/KeyOrderedMultiValueTable.hpp:652-871 | the map from key to sequence, key by key: an emptied key is gone |
| KeyOrdered.ListMeans | include/mdbx_containers/KeyOrderedMultiValueTable.hpp:666-671 | the values a list of pairs gives a key, pair by pair |
| KeyOrdered.KeyOrderedMultiValueTable.Find | include/mdbx_containers/KeyOrderedMultiValueTable.hpp:673-692 | the key's values in append order |
| KeyOrdered.KeyOrderedMultiValueTable.Append | include/mdbx_containers/KeyOrderedMultiValueTable.hpp:652-664 | extends the key's sequence at the end; each refusal exactly under its condition, nothing changed |
| KeyOrdered.KeyOrderedMultiValueTable.AppendAll | include/mdbx_containers/KeyOrderedMultiValueTable.hpp:666-671 | appends the batch in order, or its part before a pair that must be refused |
| KeyOrdered.KeyOrderedMultiValueTable.EraseKey | include/mdbx_containers/KeyOrderedMultiValueTable.hpp:806-814 | the map without the key; refused under a capture |
| KeyOrdered.KeyOrderedMultiValueTable.ErasePair | include/mdbx_containers/KeyOrderedMultiValueTable.hpp:816-843 | the key's sequence without the value, and how many went |
| KeyOrdered.KeyOrderedMultiValueTable.DupAt | include/mdbx_containers/KeyOrderedMultiValueTable.hpp:845-871 | the counting NEXT_DUP loop stops on the index-th entry of the key or on nothing |
| KeyOrdered.KeyOrderedMultiValueTable.EraseAt | include/mdbx_containers/KeyOrderedMultiValueTable.hpp:845-871 | drops exactly that append-order index; unchanged when out of range |
| KeyOrdered.KeyOrderedMultiValueTable.Clear | include/mdbx_containers/KeyOrderedMultiValueTable.hpp:907-909 | the empty map; refused under a capture |
| KeyOrdered.KeyOrderedMultiValueTable.ReplaceWith | include/mdbx_containers/KeyOrderedMultiValueTable.hpp:207-215 | the batch appended to the empty map |
| KeyOrdered.KeyOrderedMultiValueTable.Range | include/mdbx_containers/KeyOrderedMultiValueTable.hpp:620-650 | keys in order and, for every key in range, its whole sequence in append order |
| KeyOrdered.RangeUnique | include/mdbx_containers/KeyOrderedMultiValueTable.hpp:620-650 | only one list has the keys of a range in order with each key's whole sequence |
| KeyOrdered.RangeMeans | include/mdbx_containers/KeyOrderedMultiValueTable.hpp:620-650 | a range in terms of the key order and each key's sequence |
| OrderedRuns.TraceFull | include/mdbx_containers/KeyOrderedMultiValueTable.hpp:583-602 | when order numbers and the size limit leave room for everything a run offers, no call of it falls short |
| OrderedRuns.Run | include/mdbx_containers/KeyOrderedMultiValueTable.hpp:207-909 | every call of a run does to the map what it means and answers as the map does, short only of pairs the table must refuse; with room for everything offered all replies, ranges included, and the final map are those of the map from key to value sequence |
| OrderedRuns.CallMeans | include/mdbx_containers/KeyOrderedMultiValueTable.hpp:207-909 | each call of a run, key by key: the sequence before and after, the reply, and the pair it was refused at if it fell short |
| OrderedRuns.DroppedCopies | include/mdbx_containers/KeyOrderedMultiValueTable.hpp:816-843 | what filtering a value removes is its number of occurrences |
| KeyTables.KeyTable.Insert | include/mdbx_containers/KeyTable.hpp:1216-1231 | adds the key exactly when absent; a Put is recorded exactly then |
| KeyTables.KeyTable.Erase | include/mdbx_containers/KeyTable.hpp:1250-1264 | removes the key; a Delete is recorded exactly when it was there |
| KeyTables.KeyTable.Clear | include/mdbx_containers/KeyTable.hpp:1266-1271 | empty, with one ClearTable recorded |
| KeyTables.KeyTable.Append | include/mdbx_containers/KeyTable.hpp:1208-1214 | the union; a Put for each key neither stored nor earlier in the batch |
| KeyTables.KeyTable.Reconcile | include/mdbx_containers/KeyTable.hpp:675-681 | exactly the source's keys; a ClearTable and then the Puts of its distinct keys are recorded |
| KeyTables.KeyTable.EraseRange | include/mdbx_containers/KeyTable.hpp:1170-1204 | exactly the range goes; the recorded Deletes are its keys in ascending order, and replaying them gives the contents |
| KeyTables.KeyTable.Range | include/mdbx_containers/KeyTable.hpp:823-850 | the keys in the range, in order |
| KeyTables.KeyTable.ForEachRange | include/mdbx_containers/KeyTable.hpp:854-886 | the callback sees the range in order up to the first key it declines; whether it completed |
| KeyTables.KeyTable.ReverseStart | include/mdbx_containers/KeyTable.hpp:1039-1079 | the start seek lands on the last key of the range or on nothing |
| KeyTables.KeyTable.RangeReverse | include/mdbx_containers/KeyTable.hpp:1039-1119 | the exact reversal of range; with a limit its prefix of that length |
| KeyTables.KeyTable.CountKeys | include/mdbx_containers/KeyTable.hpp:1141-1168 | the number of keys in the range |
| KeyTables.KeyTable.Count | include/mdbx_containers/KeyTable.hpp:1244-1248 | the number of keys |
| KeyRuns.Step | include/mdbx_containers/KeyTable.hpp:675-1271 | one call does to the keys what it does to a plain set, answers from the keys before it, and records exactly the change |
| KeyRuns.Run | include/mdbx_containers/KeyTable.hpp:675-1271 | any run leaves the keys a plain set would have and answers every call from the keys at that point; its log is what the calls record one after the other, nothing for a call that changes nothing, and folding it over the starting contents gives the final ones |
| KeyRuns.CallMeans | include/mdbx_containers/KeyTable.hpp:675-1271 | each call of a run, key by key: stored before, stored after, and the reply |
| SequenceTables.IdOrder | include/mdbx_containers/SequenceTable.hpp:490-501 | stored id keys order as the ids do |
| SequenceTables.SequenceTable.Append | include/mdbx_containers/SequenceTable.hpp:503-542 | the id is zero when empty and otherwise one above the largest stored id; refused exactly when that is 2^64 - 1; every other entry is untouched |
| SequenceTables.SequenceTable.AppendMany | include/mdbx_containers/SequenceTable.hpp:86-96 | consecutive ascending ids for the values in order, one Put each; shorter only when ids ran out |
| SequenceTables.SequenceTable.Set | include/mdbx_containers/SequenceTable.hpp:544-555 | the contents with the id set, one Put recorded |
| SequenceTables.SequenceTable.Get | include/mdbx_containers/SequenceTable.hpp:557-566 | the id's value, or nothing |
| SequenceTables.SequenceTable.Erase | include/mdbx_containers/SequenceTable.hpp:579-593 | the contents without the id; a Delete is recorded exactly when it was there |
| SequenceTables.SequenceTable.Clear | include/mdbx_containers/SequenceTable.hpp:595-600 | empty, with one ClearTable recorded |
| SequenceTables.SequenceTable.Range | include/mdbx_containers/SequenceTable.hpp:679-707 | exactly the stored ids of the interval with their values, ascending, holes skipped |
| SequenceRuns.NextSlot | include/mdbx_containers/SequenceTable.hpp:503-542 | the id read off the last key is the one above the largest id in use, zero when none is |
| SequenceRuns.BatchDone | include/mdbx_containers/SequenceTable.hpp:86-96 | a batch, the part refused for want of ids included, is its values appended one by one: the same slots, ids and Puts |
| SequenceRuns.SlotsShown | include/mdbx_containers/SequenceTable.hpp:490-501 | the contents stand for one map from id to value and no other |
| SequenceRuns.Run | include/mdbx_containers/SequenceTable.hpp:503-600 | any run leaves the slots a plain map from id to value would have and answers as it does, chosen ids included; its log is what the calls record one after the other, and folding it over the starting contents gives the final ones |
| SequenceRuns.AppendMeans | include/mdbx_containers/SequenceTable.hpp:503-542 | append takes zero or the id above all in use and records it, and does nothing once the last id is taken |
| SequenceRuns.AppendManyMeans | include/mdbx_containers/SequenceTable.hpp:86-96 | a batch is its values appended one by one, in slots, ids and records |
| SequenceRuns.SlotMeans | include/mdbx_containers/SequenceTable.hpp:544-600 | set, erase and clear slot by slot, with reply and record |
| CompositeKeys.SignedRankShifts | include/mdbx_containers/detail/utils.hpp:145-169 | flipping the sign bit of the two's complement adds half the range |
| CompositeKeys.TerminatedOrder | include/mdbx_containers/CompositeKey.hpp:77-90 | escaped and terminated strings, with anything after them, sort as the strings do, zero bytes included |
| CompositeKeys.AppendTerminated | include/mdbx_containers/CompositeKey.hpp:77-90 | the escaping loop appends the terminated form |
| CompositeKeys.ReadTerminatedBytes | include/mdbx_containers/CompositeKey.hpp:92-120 | the unescaping loop accepts what the recursive reader accepts and advances past it |
| CompositeKeys.ReadTerminatedExact | include/mdbx_containers/CompositeKey.hpp:92-120 | what the reader accepts is the terminated form of what it returns |
| CompositeKeys.ReadPartExact | include/mdbx_containers/CompositeKey.hpp:138-291 | every component reader accepts only canonical encodings, out-of-range integers, bad booleans and NaN patterns refused |
| CompositeKeys.PartPrefixFree | include/mdbx_containers/CompositeKey.hpp:138-291 | no component's bytes begin another value's: equal concatenations have equal components and rests |
| CompositeKeys.PartOrder | include/mdbx_containers/CompositeKey.hpp:138-291 | component bytes, with anything after them, sort as the component values do |
| CompositeKeys.EncodingOrder | include/mdbx_containers/CompositeKey.hpp:343-373 | bytewise order of two encoded keys of a shape is the component-wise order of the keys |
| CompositeOrder.FloatOrderIsNumeric | include/mdbx_containers/detail/utils.hpp:111-143 | encoded finite floats sort as the real numbers they stand for, equal numbers having equal bytes; the infinities sort at the ends |
| CompositeOrder.PlainOrder | include/mdbx_containers/CompositeKey.hpp:138-291 | encoded integers, booleans and byte strings sort as the values do, and differ when they do |
| CompositeOrder.FirstDifferenceDecides | include/mdbx_containers/CompositeKey.hpp:343-373 | keys of a shape sort by the first component whose bytes differ |
| CompositeOrder.NoDifference | include/mdbx_containers/CompositeKey.hpp:343-373 | keys have the same bytes exactly when all their components do |
| CompositeOrder.SizeGrows | include/mdbx_containers/detail/utils.hpp:111-143 | without the sign, a larger IEEE 754 pattern is a larger number, subnormals and powers of two included |
| CompositeOrder.KnownSingles | include/mdbx_containers/detail/utils.hpp:111-126 | the numbers of some binary32 patterns, -1 and -2 among them |
| CompositeOrder.KnownDoubles | include/mdbx_containers/detail/utils.hpp:128-143 | the numbers of some binary64 patterns |
| CompositeOrder.FloatClasses | include/mdbx_containers/CompositeKey.hpp:219-239 | what is refused as NaN is the largest exponent with a fraction; without one it is an infinity |
| CompositeOrder.FloatFormat | include/mdbx_containers/detail/utils.hpp:111-143 | negative patterns are complemented, others get the sign bit set, both zeros are one |
| CompositeOrder.IntegerFormat | include/mdbx_containers/CompositeKey.hpp:138-217 | integers are big-endian in their storage width, signed ones moved up by half its range; booleans are zero or one in four bytes |
| CompositeOrder.StringFormat | include/mdbx_containers/CompositeKey.hpp:77-90 | strings byte by byte, a zero byte as 00 FF, ended by 00 00 |
| CompositeOrder.IntegerRanges | include/mdbx_containers/CompositeKey.hpp:138-217 | the values each integer width admits |
| CompositeKeys.EncodingInjective | include/mdbx_containers/CompositeKey.hpp:343-347 | equal bytes are equal keys, up to the sign of zero |
| CompositeKeys.DecodeExact | include/mdbx_containers/CompositeKey.hpp:354-367 | decoding accepts a byte string exactly when it is the encoding of a key of the shape, and returns that key: truncated, trailing, badly escaped and out-of-range inputs are refused |
| CompositeKeys.RoundTrip | include/mdbx_containers/CompositeKey.hpp:343-367 | decoding an encoding is the identity, bit for bit, exactly when no part is negative zero |
| CompositeKeys.NegativeZeroIsLost | include/mdbx_containers/CompositeKey.hpp:219-239 | the two-component key that does not come back bit for bit |
| CompositeKeys.EqualIffSameBytes | include/mdbx_containers/CompositeKey.hpp:369-373 | operator==, which compares the tuples, is equality of the bytes and the equality operator< leaves |
| CompositeKeys.RoundTripEqual | include/mdbx_containers/CompositeKey.hpp:354-369 | every key that encodes decodes to a key operator== to it, negative zero included |
| CompositeKeys.SelfEqualIffEncodable | include/mdbx_containers/CompositeKey.hpp:343-369 | a key is operator== to itself exactly when it encodes: NaN is what neither allows |
| CompositeKeys.ToBytes | include/mdbx_containers/CompositeKey.hpp:343-347 | the appending codec produces the encoding, and is refused exactly when a component is NaN |
| CompositeKeys.Decode | include/mdbx_containers/CompositeKey.hpp:354-367 | the reading codec, moving a position, accepts exactly the byte strings that are encodings of a key of the shape |
| AnyValues.UnwrapExact | include/mdbx_containers/AnyValueTable.hpp:436-488 | a value is accepted as a type exactly when it is the frame of a payload under the type's tag, and that payload comes back |
| AnyValues.WrapRefuses | include/mdbx_containers/AnyValueTable.hpp:436-455 | a value is refused exactly when tags are checked and the tag has 2^32 bytes or more |
| AnyValues.Unchecked | include/mdbx_containers/AnyValueTable.hpp:436-459 | with checking off, the default, the record is the payload itself and every byte string is read back under every tag |
| AnyValues.StoredIsRead | include/mdbx_containers/AnyValueTable.hpp:436-488 | with checking on or off, what is stored under a tag is read back under it |
| AnyValues.FrameLayout | include/mdbx_containers/AnyValueTable.hpp:436-519 | where a checked record has the magic, the tag's length, the tag and the payload |
| AnyValues.OtherTypeRefused | include/mdbx_containers/AnyValueTable.hpp:457-488 | a value framed under one tag is refused under every other, also when one tag begins with the other |
| AnyValues.RawRecordRefused | include/mdbx_containers/AnyValueTable.hpp:457-488 | any record is refused exactly when the tag is too long or the record does not begin with its header and tag |
| TableSequences.TableSequence.Reserve | include/mdbx_containers/TableSequence.hpp:70-96 | the first of the new ids; zero counts, read-only transactions and overflow refused, each exactly then and changing nothing |
| TableSequences.TilesExact | include/mdbx_containers/TableSequence.hpp:20-25 | blocks laid end to end hold every id of the span once, no other id, and their counts add up |
| TableSequences.GrantedTiles | include/mdbx_containers/TableSequence.hpp:70-96 | what a transaction is given is laid end to end above its start and never passes 2^64 - 1 |
| TableSequences.EveryIdOnce | include/mdbx_containers/TableSequence.hpp:20-25 | over any run of committing and rolling-back transactions every id from one up to the total is handed out durably exactly once, and no other |
| TableSequences.OnceMeans | include/mdbx_containers/TableSequence.hpp:20-25 | an id handed out once is in one block and in no other |
| TableSequences.AllGranted | include/mdbx_containers/TableSequence.hpp:70-96 | a writable transaction whose counts are positive and fit is given a block for each, right after the ones before |
| TableSequences.DemandIsMet | include/mdbx_containers/TableSequence.hpp:70-96 | a run that asks for no more ids than there are gets them all, and only committing transactions use any up |
| TableSequences.TableSequence.RunTxn | include/mdbx_containers/TableSequence.hpp:70-96 | a transaction is given a block for each count that fits, and they last exactly when it commits |
| TableSequences.RunAll | include/mdbx_containers/TableSequence.hpp:41-96 | the blocks a run hands out durably hold every id from one up to the sequence value exactly once and no other; the value is the sum of their counts, and of what was asked for when that fits |
| PullWires.StepInv | examples/sync_06_threaded_transport.cpp:112-282 | every step of either thread, failures and stops included, keeps the handshake invariant |
| PullWires.HandshakeSafe | examples/sync_06_threaded_transport.cpp:112-282 | in every state of every interleaving the request is in at most one place and the i-th response consumed is the handler's answer to the i-th request, on a log between publication and consumption |
| PullWires.NeverJams | examples/sync_06_threaded_transport.cpp:112-282 | as long as nobody asks to stop, some step of the handshake is enabled: no request is lost |
| PullWires.AnsweredWithinFour | examples/sync_06_threaded_transport.cpp:112-282 | once the threads have taken four serving steps after a request was published, whatever else they did, its own answer has been consumed |
| PullWires.ReplicaFollows | examples/sync_06_threaded_transport.cpp:238-330 | with a handler that returns batches right after the cursor, the reader's replica is always a prefix of the writer's log, and a reader that ends by its exit test holds all of it with the writer done |
| PullHistory.LogIsCommitted | examples/sync_06_threaded_transport.cpp:152-175 | the log is the batches committed, in order |
| PullHistory.FlagsAreRaised | examples/sync_06_threaded_transport.cpp:185-374 | the writer is done exactly once it has finished or failed, and a stop is asked for exactly once a thread has failed or main has asked |
| PullHistory.DoneIsFinal | examples/sync_06_threaded_transport.cpp:185-208 | a writer that is done writes nothing more |
| PullHistory.ReplicaIsPulled | examples/sync_06_threaded_transport.cpp:238-311 | the replica is the batches of all responses consumed, without the last while it is being applied or when the reader failed there |
| PullHistory.ExchangeAdds | examples/sync_06_threaded_transport.cpp:238-311 | with a handler that gives a batch to anybody behind, an exchange begun behind the log makes the replica longer |
| PullHistory.ReaderCatchesUp | examples/sync_06_threaded_transport.cpp:238-330 | with such a handler, under any interleaving, a reader that keeps exchanging after the log is complete reaches all of it within as many exchanges as there are batches and one more |
| PullHistory.EveryLogIsReplicated | examples/sync_06_threaded_transport.cpp:112-330 | for any log and any positive page size there is a run that ends with the reader holding the log |
| PullWakeups.Underneath | examples/sync_06_threaded_transport.cpp:112-374 | with sleeping threads, spurious and timed wake-ups and notifications after the mutex is released, every run is one of the handshake's own |
| PullWakeups.OnTop | examples/sync_06_threaded_transport.cpp:112-374 | and every run of the handshake happens |
| PullWakeups.NoLostWakeup | examples/sync_06_threaded_transport.cpp:112-374 | a sleeping thread whose wait condition holds always has a notify_all coming from an awake thread |
| PullWakeups.NeverDeadlocks | examples/sync_06_threaded_transport.cpp:112-374 | unless a notify_all is coming, before a stop the thread whose turn it is in the handshake is awake and can take it |
| PullWakeups.StopReachesAll | examples/sync_06_threaded_transport.cpp:175-374 | unless a notify_all is coming, after a stop nobody sleeps and each thread that has not ended can take a step of its way out |

## Left out

- libmdbx itself: pages, durability, locking and reader slots. Only the ordered-store, cursor and sequence contract above is assumed.
- A cursor is a value over the DBI's entries, not a handle with a lifetime; opening and closing cursors is not modelled.
- Transactions around table calls: a method that is refused midway leaves what it had written, and the rollback a library-owned transaction performs is not modelled, except in `TableSequences`; the results of `Orphans` are about a caller's transaction that goes on.
- Key and value serialization, result-container selection and the overloads that differ only in types or transaction arguments.
- SyncEngine, the changelog stores, codecs and transports: the pull handler is an arbitrary function in the handshake results, an incremental one in PullWires.ReplicaFollows, and one that also gives a batch to anybody behind in PullHistory.ReaderCatchesUp and PullHistory.EveryLogIsReplicated.
- The adapter's checks on schema and payload decoding before a logical change is applied.
- PullWires.NeverJams: states that a step is enabled, not that a scheduler takes it; PullWires.AnsweredWithinFour counts the steps it has to take. That the thread is awake to take it is PullWakeups.NeverDeadlocks.
- PullWakeups.NeverDeadlocks: states that a step can be taken, not that a scheduler takes it; durations of sleeps and deadlines are not modelled.
- PullWires.ReplicaFollows: one writer, so a cursor is one number; full snapshots and byte budgets of a pull are not modelled.
- CompositeKeys.DecodeExact: null data with a non-zero size is not modelled; character parts are unsigned integers of their storage width.
- The logical append log of KeyOrderedMultiValueTable; its refusals under a capture are modelled.
- lower_bound and upper_bound of KeyTable, and the callback and limited forms of the multi-value scans: the same seeks as the members above.
- KeyValueTable, ValueTable, MetadataTable and AnyValueTable's put and get: one store call each beside what is modelled.
- Concrete hash functions, the vector store, configuration, connections, exceptions and backup.
