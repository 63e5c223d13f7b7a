# Analysis-record store

This is a Dafny model of the app's local analysis-record store, `utils/storage.ts`. The store keeps a list of analysis records in one JSON document, `analyses.json`, in the app's private document directory. The most recently saved record comes first. The store has three operations:

- `saveAnalysis` removes every record with the new record's id and puts the new record in front.
- `getAnalyses` returns the stored list. When the document cannot be read or parsed, it returns the empty list.
- `deleteAnalysis` removes every record with a given id.

Each of these first calls `ensureStorageFile`. That helper creates the document holding `[]` when no file exists.

Everything is in `storage.dfy`, in module `Storage`:

- **Data.** `AnalysisData` is a datatype with the record's seven required fields. Its four optional fields are `Option`s. `Status` has three constructors.
- **The file.** The backing file is a `StoreFile`:
  - `Absent`: no file at the path.
  - `Present(records)`: the file reads and parses to that list.
  - `Corrupt`: the file exists, but reading or parsing it throws.
- **The class.** `AnalysisStore` holds the file in a mutable field. Its methods follow the source's steps: check the file, create it if needed, read it, then overwrite it. `ReadDocument` and `WriteDocument` stand for the file-system calls.
- **Write failures.** Whether a write succeeds is a parameter of the operation that makes it:
  - `bootstrapWriteOk` is for the write inside `ensureStorageFile`.
  - `writeOk` is for the final write of a save or delete.
  - A failed write leaves the file as it was. A save or delete then returns `WriteFailed`, which stands for the rethrown error. A listing whose bootstrap write fails returns the empty list instead.
- **The list transforms.** The filter `records.filter(a => a.id !== id)` is written once, as `Without`. Line 40 uses it with the saved record's id and line 63 with the deleted id. `Saved` is the list line 40 writes. The lemmas about these two functions carry the properties.

The code does not check that a record's `id` is non-empty, so the model accepts any id too.

## Model

| member | source | states |
|---|---|---|
| Storage.Without | utils/storage.ts:63 | the result is no longer than the input; no record in it has the id; a record is in it exactly when it is in the input with another id |
| Storage.Saved | utils/storage.ts:40 | the new record is first; no later record has its id; the length is at most the old length + 1; a record is in the result exactly when it is the new record or an old record with another id |
| Storage.WithoutAbsentId | utils/storage.ts:63 | deleting an id that no stored record has leaves the list unchanged |
| Storage.WithoutIdempotent | utils/storage.ts:63 | deleting an id twice gives the same list as deleting it once |
| Storage.WithoutConcat | utils/storage.ts:63 | the filter distributes over concatenation, so each record is kept or dropped on its own id alone |
| Storage.WithoutLength | utils/storage.ts:63 | the filter drops exactly as many records as carry the id |
| Storage.WithoutIsSubsequence | utils/storage.ts:63 | the remaining records keep their relative order: they are a subsequence of the old list |
| Storage.WithoutKeepsUniqueIds | utils/storage.ts:63 | if no two records share an id before a delete, none do after it |
| Storage.DeleteRemovesOne | utils/storage.ts:63 | when ids are unique, deleting the id of the record at index i gives the old list with just that record removed |
| Storage.SavedHasIdOnce | utils/storage.ts:40 | after a save exactly one record has the saved id, even if the old list held several |
| Storage.SavedRestIsFiltered | utils/storage.ts:40 | without its first record, the saved list is the old list filtered to other ids; it is a subsequence of the old list; its length is the old length minus the number of records with that id, plus one |
| Storage.SavedNewId | utils/storage.ts:40 | saving a record whose id is not stored puts it in front of the unchanged old list |
| Storage.SavedOverwrites | utils/storage.ts:40 | saving b after a, with the same id, gives the same list as saving b alone: the last write for an id wins |
| Storage.SavedKeepsUniqueIds | utils/storage.ts:40 | if no two records share an id before a save, none do after it |
| Storage.DeleteAfterSave | utils/storage.ts:36-64 | deleting the id just saved gives the same list as deleting it from the list before the save |
| Storage.SavedAllPrepends | utils/storage.ts:40 | saving records with distinct new ids one after another (A, B, C) gives them most recent first ([C, B, A]) in front of the old list |
| Storage.AnalysisStore.ReadDocument | utils/storage.ts:51-52 | reading yields the stored list exactly when the file is present and parses; a missing or corrupt file throws |
| Storage.AnalysisStore.WriteDocument | utils/storage.ts:41 | a successful write replaces the document with the given list; a failed write reports the failure and leaves the file unchanged |
| Storage.AnalysisStore.EnsureStorageFile | utils/storage.ts:29-34 | an absent file becomes present and holds the empty list, or the write failure is reported and the file stays absent; a file that exists, readable or not, is left untouched |
| Storage.AnalysisStore.GetAnalyses | utils/storage.ts:48-57 | a readable file yields exactly its stored list, in stored order; an absent or corrupt file, or a failed bootstrap, yields the empty list and no error; the only change it makes is creating an absent file |
| Storage.AnalysisStore.SaveAnalysis | utils/storage.ts:36-46 | the save succeeds exactly when its writes do; on success the file holds Saved(old list, record), the record is first and its id appears once; a corrupt file is overwritten with exactly [record]; a failed write is reported and leaves the file as the bootstrap left it; unique ids are preserved |
| Storage.AnalysisStore.DeleteAnalysis | utils/storage.ts:59-69 | the delete succeeds exactly when its writes do; on success the file holds the old list filtered to other ids, and no record has the id; an id that is not stored leaves a present file unchanged; a failed write is reported and leaves the file as the bootstrap left it; unique ids are preserved |
| Storage.SaveListDeleteScenario | utils/storage.ts:36-69 | from no file: saving record "1" and then record "2" lists [record 2, record 1]; deleting "1" then lists [record 2] |

## Left out

- JSON text, `JSON.stringify` and `JSON.parse` are not modelled. The document is the list it encodes. A file that cannot be read or parsed is the abstract state `Corrupt`.
- A document that parses as JSON but is not an array of records is not modelled. In the source, `getAnalyses` returns such a value unchanged. If it is not an array, or is an array holding `null`, the `.filter` call in `saveAnalysis` or `deleteAnalysis` throws. An array of other values is filtered on each element's `id` property and written back: an element without one has `id` undefined, so it is kept.
- The `expo-file-system` calls and the path `FileSystem.documentDirectory + "analyses.json"` are modelled only as reads and writes of the `file` field.
- A failure of `getInfoAsync` is not modelled: the existence check always succeeds.
- A one-off read failure on a readable file is not modelled either. Only a file that fails every read, `Corrupt`, is.
- A write either replaces the whole document or leaves it unchanged. A partial write after a crash is not modelled.
- Async interleaving is not modelled: each operation runs atomically. The source loses one update when two saves overlap, because each reads the document before either writes.
- `console.error` logging and the exact exception value rethrown by `saveAnalysis` and `deleteAnalysis` are not modelled. A rethrown write error is the result `WriteFailed`.
- JavaScript numbers in `nutritionFacts` are modelled as `real`. Floating point, and how NaN and infinities serialise, are not modelled. The store never inspects these values.
