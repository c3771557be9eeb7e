# Per-segment document version lookup

A model of the per-segment identifier → (docId, version) lookup in the Elasticsearch
version-resolution layer. This layer tells a get-by-id or a conditional write which
document slot currently holds a given `_id`, and which `_version` it has.

A segment is an immutable, dense, 0-based sequence of documents. Each document carries an
identifier (a byte string, the `_id` field) and a 64-bit version (the `_version` numeric
doc values). Updates are appended, and the older copy is deleted through the segment's
liveness bitset. So one identifier can occur at several slots of a segment.
`PerThreadIDAndVersionLookup` is built once over a segment. It is then asked
`lookupVersion(id, liveDocs, segment)` any number of times, possibly with different
liveness bitsets. Each call answers with the **highest-numbered live slot** whose identifier
equals `id`, together with that slot's version. It answers `null` when the identifier does
not occur or none of its occurrences is live. A `null` liveness argument means every slot
is live.

The model is in three modules:

- `Wrappers` (`wrappers.dfy`): `Option`, which stands in for a Java reference that may be `null`.
- `VersionLookup` (`version_lookup.dfy`):
  - the data: `Doc`, `DocIdAndVersion` and the `Int64` range of a Java `long`;
  - the specification: `LastLiveSlot` and `LastLiveMatch`, with their characterisation and
    what setting or clearing one liveness bit does to the answer;
  - the terms index (`Occurrences`, `Indexes`, `BuildPostings`), which maps each identifier
    to its ascending slot list;
  - the class `PerThreadIdAndVersionLookup`. It captures the segment and its terms index
    once, in the constructor. In Lucene the segment's terms dictionary already exists and the
    constructor only opens it; `BuildPostings` stands for that dictionary, which the model
    derives because a segment is given as a sequence of documents. `GetDocId` and
    `LookupVersion` seek the identifier, walk its postings in ascending order, skip deleted
    slots and keep the last slot they see. They are proved equal to the specification
    functions.
- `VersionLookupScenarios` (`version_lookup_scenarios.dfy`): the single-document and
  two-document scenarios. Each one builds the lookup once and reuses it; `TwoDocuments` also
  changes an `array<bool>` liveness bitset in place between lookups, as `FixedBitSet.set`/`clear`
  do at `VersionLookupTests.java:91-99`.

On duplicate identifiers the rule is the last **live** occurrence, not the last occurrence
with liveness checked afterwards: with slot 1 deleted and slot 0 live the lookup returns
slot 0 (`VersionLookupTests.java:97-103`).

## Model

| member | source | states |
|---|---|---|
| `VersionLookup.LastLiveSlot` | core/src/test/java/org/elasticsearch/common/lucene/uid/VersionLookupTests.java:85-105 | the answer slot is below the bound, carries the identifier and is live, and no higher slot is a live occurrence; there is no answer exactly when no slot is a live occurrence |
| `VersionLookup.LastLiveMatch` | core/src/test/java/org/elasticsearch/common/lucene/uid/VersionLookupTests.java:58-105 | a present result has its slot inside the segment, the queried identifier, a live slot and the version stored there, and no higher live slot has that identifier; it is absent exactly when the identifier is missing or every occurrence is deleted |
| `VersionLookup.LastLiveSlotUnique` | core/src/test/java/org/elasticsearch/common/lucene/uid/VersionLookupTests.java:97-103 | a slot is the answer if and only if it is a live occurrence with no live occurrence above it, so an earlier live duplicate is returned when the later one is deleted |
| `VersionLookup.LastLiveMatchCharacterised` | core/src/test/java/org/elasticsearch/common/lucene/uid/VersionLookupTests.java:85-105 | the lookup returns slot d with d's stored version if and only if d is a live occurrence and no higher slot is one |
| `VersionLookup.ClearOtherSlotKeepsAnswer` | core/src/test/java/org/elasticsearch/common/lucene/uid/VersionLookupTests.java:90-96 | deleting a slot that is not the answer leaves the answer unchanged |
| `VersionLookup.ClearAnswerFallsBack` | core/src/test/java/org/elasticsearch/common/lucene/uid/VersionLookupTests.java:97-103 | deleting the answer slot makes the answer the last live occurrence strictly below it, or none |
| `VersionLookup.SetSlotLive` | core/src/test/java/org/elasticsearch/common/lucene/uid/VersionLookupTests.java:91-99 | marking slot s live makes s the answer exactly when it carries the identifier and lies above the previous answer (or there was none); otherwise the answer is unchanged |
| `VersionLookup.OccurrencesExact` | core/src/test/java/org/elasticsearch/common/lucene/uid/VersionLookupTests.java:74-84 | the occurrence list of an identifier holds exactly the slots that carry it, each once, strictly ascending |
| `VersionLookup.BuildPostings` | core/src/test/java/org/elasticsearch/common/lucene/uid/VersionLookupTests.java:84 | the terms index built in one pass maps every identifier that occurs to its non-empty ascending occurrence list and has no key for any other identifier |
| `VersionLookup.IndexOfIndexes` | core/src/test/java/org/elasticsearch/common/lucene/uid/VersionLookupTests.java:74-84 | adding a segment's slots to the index one at a time, in ascending order, yields exactly its terms index |
| `VersionLookup.WalkPostings` | core/src/test/java/org/elasticsearch/common/lucene/uid/VersionLookupTests.java:85-105 | walking a postings list in ascending order, skipping deleted slots and keeping the last one seen, returns the last live slot of the list |
| `VersionLookup.KeepLastLive` | core/src/test/java/org/elasticsearch/common/lucene/uid/VersionLookupTests.java:85-105 | walking a slot list and keeping the last live slot yields a live member of the list with no live slot after it in the list, and nothing exactly when no slot of the list is live |
| `VersionLookup.WalkFindsLastLiveSlot` | core/src/test/java/org/elasticsearch/common/lucene/uid/VersionLookupTests.java:85-105 | walking an identifier's postings and keeping the last live slot gives the last live occurrence of the identifier |
| `VersionLookup.Liveness` | core/src/test/java/org/elasticsearch/common/lucene/uid/VersionLookupTests.java:58-65 | a null bitset is the "everything live" view; otherwise a slot is live exactly when its bit is set |
| `VersionLookup.PerThreadIdAndVersionLookup.constructor` | core/src/test/java/org/elasticsearch/common/lucene/uid/VersionLookupTests.java:56 | the lookup captures the segment and a terms index of it that is valid for the segment |
| `VersionLookup.PerThreadIdAndVersionLookup.GetDocId` | core/src/test/java/org/elasticsearch/common/lucene/uid/VersionLookupTests.java:58-65 | seeking the identifier in the terms index and walking its postings returns the slot of the last live occurrence of the identifier under the given bitset, or none when it has no live occurrence |
| `VersionLookup.PerThreadIdAndVersionLookup.LookupVersion` | core/src/test/java/org/elasticsearch/common/lucene/uid/VersionLookupTests.java:58-105 | the result equals the last live match (slot and stored version) of the identifier in the captured segment under the given bitset |
| `VersionLookupScenarios.MatchNoBits` | core/src/test/java/org/elasticsearch/common/lucene/uid/VersionLookupTests.java:65 | a bitset of the given size with every slot deleted |
| `VersionLookupScenarios.SingleDocument` | core/src/test/java/org/elasticsearch/common/lucene/uid/VersionLookupTests.java:47-69 | "6" is found at slot 0 with version 87, "7" is not found, and "6" is not found when its only slot is deleted |
| `VersionLookupScenarios.TwoDocuments` | core/src/test/java/org/elasticsearch/common/lucene/uid/VersionLookupTests.java:74-109 | with duplicates, all live gives slot 1; only slot 1 live gives slot 1; only slot 0 live gives slot 0; none live gives no result; the version is always 87 |
| `VersionLookupScenarios.LookupTwice` | core/src/test/java/org/elasticsearch/common/lucene/uid/VersionLookupTests.java:84-105 | one lookup object asked the same question twice gives the same answer |

## Left out

- Segment creation through Lucene's `IndexWriter`, `Directory` and `DirectoryReader` is not modelled. A segment is given directly as a sequence of documents.
- The `LeafReaderContext` that the source passes to `lookupVersion` and stores in `DocIdAndVersion` is not modelled. The result carries only the slot and the version, because the caller already holds the segment it asked.
- The field-name argument of the constructor (`IdFieldMapper.NAME`) is not modelled. The identifier is always the document's `id`.
- A segment whose version field is missing is not modelled. Every modelled document carries a version.
- The thread-local cache of lookup objects and the resolution across segments (`VersionsResolver`) are not part of this model. `VersionsResolver` appears only as the home of the result type (`VersionLookupTests.java:34`).
- Concurrency and the per-thread aspect are not modelled. The model has one sequential caller.
- The specialised direct identifier → slot index variant is not modelled. The single terms-index form is the only one.
- `LookupVersion` requires a non-null bitset to have exactly one bit per slot, as Lucene requires of `liveDocs`. Its behaviour for bitsets of another size is not modelled.
- The 32-bit width of Java's `int` document id is not modelled: `DocIdAndVersion.docId` is a `nat`. Slots are bounded by the segment's size and are only compared, so nothing depends on the width.
