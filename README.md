# ICD-10 coding agents: a Dafny model of the index bookkeeping and the review pipeline

This project models the core of a small TypeScript system. The system turns a
medical note into ICD-10 codes in two parts.

- It retrieves candidate codes from an HNSW vector index of code embeddings.
- It runs a fixed chain of language-model stages: symptom extraction, candidate
  retrieval, assessment and plan, physician coding, patient review, and
  adjustor review.

The modules follow the source files:

- `Wrappers` (`wrappers.dfy`) holds `Option`, `Result`, and `Get`, which is
  JavaScript's `Map.prototype.get` with `undefined` as `None`.
- `Hnsw` (`hnsw.dfy`) holds the `hnswlib-node` structure that `EmbeddingIndex`
  delegates to. It keeps the points it accepted. Its two answers are oracles
  fixed at construction:
  - whether `addPoint` returns or throws;
  - what `searchKnn` returns.
- `Helpers` (`helpers.dfy`) models `src/helpers.ts`.
  - `EmbeddingIndex` is a class with the source's fields `idToPosition`,
    `positionToId` and `currentPosition`, plus a ghost history `added` of the
    codes added so far.
  - `Valid()` ties the two maps to functions of that history. `MapsTrackAdded`
    spells out what this means.
  - `dedupeByProperty` is a method with the source's loop over a Map. The Map is
    kept as its keys in insertion order plus a key-to-value map. The method is
    proved against the specification function `Dedupe`, which is built from
    `map.set` steps. `Dedupe` is then related to a reference definition: the
    first occurrences of the keys, each with the last value under that key.
- `CodeNotes` (`code_notes.dfy`) models `codeNotes` in `src/index.ts`.
  - The zod schemas are datatypes.
  - The candidate aggregation and the dispute extraction are functions, each
    with lemmas against a reference definition.
  - `codeNotes` itself is a function over a `Context` of oracles: the five
    structured completions (`None` stands for a `null` response), the
    embedding call, the index's `searchNearest`, and the description table.
    It returns the result or the thrown error, together with the stages it
    invoked, in order.

What the code does, in the cases that matter:

- **The index checks nothing itself.** `EmbeddingIndex` has no duplicate,
  dimension or capacity check of its own. Only the library's `addPoint` may
  throw, and that is the `accepts` oracle.
  - Adding a code again moves its `idToPosition` entry to the new position.
  - The old `positionToId` entry still names the code.
  - So the two maps are inverses exactly when no code was added twice
    (`InverseIffDistinct`, `ReAddLeavesStaleEntry`).
- **`addItems` stops at the first exception.** The items before it stay
  added, and the exception propagates to the caller. The model returns the
  index of the item that failed.
- **`dedupeByProperty` keeps each key at its first position, holding the last
  value set under it.** For the candidates this is the first entry of each
  code, because every entry with one code carries the same description
  (`CandidatesAreFirstCodes`).
- **A candidate is dropped only when its code is `undefined`**, that is, when
  its label was never handed out. Its description is
  `codeDescriptions.get(code)`, which may itself be `undefined`.
- **A dispute is a code plus its looked-up description.** It is built from
  each review entry with `accept == false`.
- **The stages run one after the other.** The assessment stage starts after
  the candidates are in. An empty symptom list gives no candidates and the run
  goes on.
- **The adjustor always runs** once the patient review is in, with an empty
  dispute list when every code was accepted.
- **The returned codes are the adjustor's codes as it gave them.** They are not
  filtered against the candidates (`ReturnedCodesNeedNotBeCandidates`).
- **`Context.searchNearest` stands for `EmbeddingIndex.searchNearest` on the
  loaded index.** What such a search can return is stated for a valid index:
  every code it names was added (`SearchNearestCodesWereAdded`).

## Model

| member | source | states |
|---|---|---|
| Wrappers.Get | src/helpers.ts:162 | `Map.get` is `Some` exactly for keys in the map, and then carries the stored value; the same lookup is `codeDescriptions.get` at src/index.ts:72 and src/index.ts:126 |
| Hnsw.HierarchicalNsw.constructor | src/helpers.ts:124-127 | a new structure has the given dimension and capacity and holds no points |
| Hnsw.HierarchicalNsw.AddPoint | src/helpers.ts:138 | `addPoint` either appends the labelled point or throws and leaves the structure as it was |
| Hnsw.HierarchicalNsw.SearchKnn | src/helpers.ts:157 | `searchKnn` answers with parallel arrays of labels and distances, determined by the points accepted so far, the query and `k` (the library's graph search) |
| Helpers.Positions | src/helpers.ts:142 | `positionToId` after a run of `addItem`s, one `set(position, code)` per add; its contents are stated by `PositionsSpec` |
| Helpers.PositionsSpec | src/helpers.ts:136-145 | after a run of `addItem`s, `positionToId` has exactly the positions `0 .. n-1` and position p holds the p-th code added |
| Helpers.LatestPositions | src/helpers.ts:141 | `idToPosition` after a run of `addItem`s, one `set(code, position)` per add; its contents are stated by `LatestPositionsSpec` |
| Helpers.LatestPositionsSpec | src/helpers.ts:141 | `idToPosition` has exactly the codes added, each mapped to a position holding it with no later position holding it |
| Helpers.InverseIffDistinct | src/helpers.ts:136-145 | the two maps are mutual inverses if and only if no code was added twice |
| Helpers.ReAddLeavesStaleEntry | src/helpers.ts:141-142 | re-adding a code moves `idToPosition` to the new position, leaves the old `positionToId` entry naming the code, and breaks the inverse property |
| Helpers.EmbeddingIndex.MapsTrackAdded | src/helpers.ts:118-145 | on a valid index, `currentPosition` counts the adds; `positionToId` maps exactly `[0, currentPosition)` to the codes added there; `idToPosition` maps each code added to its latest position; the maps are inverses if and only if the codes are distinct |
| Helpers.EmbeddingIndex.constructor | src/helpers.ts:122-133 | a new index has `currentPosition = 0`, both maps empty, and an empty HNSW structure of the given dimension and capacity |
| Helpers.EmbeddingIndex.AddItem | src/helpers.ts:136-145 | `addPoint` runs first, with label `currentPosition`; on success both maps gain the pairing and the counter grows by exactly one, every other entry unchanged; on an exception nothing changes |
| Helpers.EmbeddingIndex.AddItems | src/helpers.ts:148-152 | the items go in in input order up to the first one the library rejects; item i gets position `old + i`, the counter ends at `old + n`, and the library receives the points labelled `old + i` |
| Helpers.EmbeddingIndex.SearchNearest | src/helpers.ts:155-166 | one result per library neighbour in library order; result i carries `distances[i]` and `positionToId.get(neighbors[i])`, `undefined` exactly when the label is unmapped; `k` defaults to 10 |
| Helpers.EmbeddingIndex.SearchNearestNamesAddedCodes | src/helpers.ts:155-166 | on a valid index, result i names the code added at the returned label, and is `undefined` exactly when the label is not below `currentPosition` |
| Helpers.EmbeddingIndex.SearchNearestCodesWereAdded | src/helpers.ts:155-166 | on a valid index, every code a search names was added to the index |
| Helpers.FirstOccurrencesSpec | src/helpers.ts:170-174 | the reference key order has no repeats, has exactly the keys of the input, and is no longer than it |
| Helpers.FirstOccurrencesOrder | src/helpers.ts:170-174 | the reference key order lists the keys by their first index in the input |
| Helpers.MapSet | src/helpers.ts:172 | one `map.set` on the Map listed as its values in insertion order; `MapSetKeys` states that an existing key keeps its place while a new key goes last, and `MapSetStep` that the key takes the new value |
| Helpers.Dedupe | src/helpers.ts:170-174 | the Map's values after `map.set` on every element in order; `DedupeKeysAreFirstOccurrences` and `DedupeKeepsLast` state which keys it holds, in what order, and under each key the last element set |
| Helpers.MapSetKeys | src/helpers.ts:172 | `map.set` keeps an existing key at its place and appends a new key |
| Helpers.MapSetStep | src/helpers.ts:171-172 | one `map.set` keeps the pair of key list and key-to-value map in step with the Map's contents |
| Helpers.DedupeStep | src/helpers.ts:171-172 | one turn of the loop keeps the key list and the key-to-value map in step with `Dedupe` of the prefix read so far |
| Helpers.DedupeKeysAreFirstOccurrences | src/helpers.ts:170-174 | the keys of the result are the input's keys, each once, in the order of first occurrence |
| Helpers.DedupeKeepsLast | src/helpers.ts:170-174 | the element kept under each key is the last input element with that key |
| Helpers.DedupeByProperty | src/helpers.ts:170-174 | the loop computes the Map's values; the result is no longer than the input, has distinct keys in first-occurrence order, and holds under each key the last input element with that key (so every output element is an input element) |
| CodeNotes.ICD10Code | src/index.ts:9 | `ICD10CodeSchema`: a code with its description and evidence, all strings |
| CodeNotes.CodeResponse | src/index.ts:10 | `CodeResponseSchema`: a list of `ICD10Code`s |
| CodeNotes.ReviewEntry | src/index.ts:11 | one entry of `PatientReviewSchema.review`: a code, whether it is accepted, and a reason |
| CodeNotes.PatientReview | src/index.ts:11 | `PatientReviewSchema`: a list of review entries |
| CodeNotes.Described | src/index.ts:70-73 | filtering one neighbour list gives at most one entry per neighbour, each a defined code of that list with `codeDescriptions.get(code)`; `DescribedCodes` states that exactly the defined codes are kept, in order |
| CodeNotes.DescribedCodes | src/index.ts:70-73 | filtering one neighbour list keeps exactly its defined codes, in order, each with `codeDescriptions.get(code)` |
| CodeNotes.Gathered | src/index.ts:68-75 | every gathered entry is a defined neighbour code with `codeDescriptions.get(code)`; `GatheredCodes` states their order, list after list |
| CodeNotes.GatheredCodes | src/index.ts:68-75 | the `flatMap` lists the defined codes of every neighbour list, list after list, each with its looked-up description |
| CodeNotes.Candidates | src/index.ts:68-75 | the gathered codes deduplicated by `code`, empty when there are no neighbour lists; `CandidatesAreFirstCodes` and `CandidateCodesDistinctInFirstOrder` state which codes and in what order |
| CodeNotes.Embeddings | src/index.ts:63-66 | one embedding per symptom, in symptom order |
| CodeNotes.NeighborLists | src/index.ts:68-69 | one neighbour list per symptom embedding, in symptom order |
| CodeNotes.RetrievedCandidates | src/index.ts:63-75 | the candidates for the symptoms of the first stage, through the embedding and search oracles; none for an empty symptom list |
| CodeNotes.CandidatesAreFirstCodes | src/index.ts:63-75 | the candidates are the defined neighbour codes at their first appearance, each paired with `codeDescriptions.get(code)`, which may be `undefined` |
| CodeNotes.CandidateCodesDistinctInFirstOrder | src/index.ts:63-75 | candidate codes are pairwise distinct, are exactly the defined neighbour codes, and are ordered by first appearance across the symptoms in symptom order |
| CodeNotes.Disputes | src/index.ts:124-126 | at most one dispute per review entry, each with `codeDescriptions.get(code)`; `DisputesAreRejections` states that they are exactly the rejected entries |
| CodeNotes.DisputesAppend | src/index.ts:124-126 | dispute extraction works entry by entry, in review order |
| CodeNotes.DisputesAreRejections | src/index.ts:124-126 | every dispute is the projection of an entry with `accept == false`, every such entry yields one, and there are none exactly when every entry was accepted |
| CodeNotes.CodeNotes | src/index.ts:48-148 | the invoked stages are a non-empty prefix of the fixed order; a run that throws stops at the stage that threw; a run that returns went through all six stages |
| CodeNotes.NullSymptomsThrows | src/index.ts:50-60 | a `null` symptom response throws "No symptoms" and no other stage runs |
| CodeNotes.NullAssessmentThrows | src/index.ts:79-89 | a `null` assessment and plan throws "No assessment and plan" after the symptom and candidate stages, and nothing later runs |
| CodeNotes.NullPhysicianCodesThrows | src/index.ts:95-106 | a `null` physician response throws "No physician codes"; neither review runs |
| CodeNotes.NullPatientReviewThrows | src/index.ts:109-121 | a `null` patient review throws "No patient review"; the adjustor does not run |
| CodeNotes.AdjustorAlwaysRuns | src/index.ts:124-146 | once the patient review is in, the adjustor runs with the extracted disputes (empty when all were accepted) and the candidates; `codeNotes` returns exactly its codes, or throws "No adjustor review" on `null` |
| CodeNotes.EmptySymptomListContinues | src/index.ts:58-75 | an empty symptom list is not an error: the candidates are empty and the run reaches the assessment stage |
| CodeNotes.ReturnedCodesNeedNotBeCandidates | src/index.ts:128-146 | with no candidates at all, `codeNotes` can still return a code: the result is not filtered against the candidates |

## Left out

- `getStructuredCompletion`, `getEmbedding`, `getOpenaiClient` and the API-key check: network calls. They are the oracle fields of `Context`. A `null` completion is `None`.
- The failure of `getEmbedding` and the rejection of `Promise.all`: the embedding oracle is total, so an embedding that throws is not modelled.
- The `Promise.all` fan-out: concurrency. It is modelled as an order-preserving sequential map, which is what the awaited result is.
- HNSW internals, cosine distances and floating point: the graph search is the `knn` oracle and distances are opaque `real`s. Whether `addPoint` throws (wrong dimension, full index) is the `accepts` oracle.
- `searchKnn` throwing (for example on an empty index): the `knn` oracle always answers, so `SearchNearest` never fails.
- Reading the embedding JSON, streaming the CSV into `codeDescriptions`, and `src/createEmbeddings.ts`: I/O. `codeDescriptions` is a `map` in `Context`.
- Prompt strings, the sample note and the console output: they carry no logic. The candidate list reaches the physician and adjustor oracles as an argument, standing for its place in the prompt.
- Helpers.EmbeddingIndex.AddItems: it returns the index of the failing item instead of throwing. The caller sees the same state as after the exception.
- JavaScript numbers: positions are unbounded `nat`s. The source's counter would lose precision only past 2^53 items, which `maxElements` rules out in practice.

