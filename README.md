# jellyfish ingestion core in Dafny

jellyfish syncs a user's diabetes-device exports into a MongoDB
`deviceData` collection. A sync task names a group and an ordered list of
archive references. The child process `lib/children/ingest.js` works in
these steps:

1. It removes every stored entry of the group.
2. It routes each reference to a vendor decoder (Diasend spreadsheet,
   CareLink CSV, Dexcom stream) by the exact text after its last `/`.
3. It stamps each decoded entry with the group and derives a
   content-addressed storage key `_id` from SHA-1 digests.
4. It saves the entry, which is an upsert by `_id`.
5. It reports a count per file and an exit code.

`lib/entries.js` offers a second entry point, `add`. It defaults a missing
`deviceTime` to the local clock, computes `_id` by a different rule and saves
the entry.

The project has five modules:

- `Wrappers`: `Option` and an all-or-nothing combinator.
- `Records`: entry values; the mutable `Entry` object; the SHA-1 hasher object `Hasher`, whose successive `update`s hash the concatenation of their parts; the digest itself, an uninterpreted `Hash`.
- `Store`: the `deviceData` collection as a map from `_id` to entry, with `save` and `remove({groupId})`.
- `Ingest`: routing, markup, `persist`, one archive, the whole task (`sync`) and `end`.
- `Entries`: `add`.

The archive pipeline is modelled as a sequential loop. Each archive's decoder output is an input of the model:

- `Complete(records)`: the decoder ended normally.
- `Failed(records)`: the decoder signalled an error after emitting `records`.

Points where the model fixes a behaviour of the code:

- A failed `remove` throws out of its callback, so `end` is never reached and the process dies on the uncaught exception. `Ingest.Sync` calls `end` with no error on every run that finishes, so it reports exit code 0. `Ingest.End` keeps the 255 branch for a non-null error, which the model never passes.
- Routing compares the last segment of a reference with each tag for equality only. A last segment that merely ends with a tag selects no decoder.
- With the references `/tmp/a_carelink.csv` and `https://host/b_dexcom`, neither reference routes, so both are passed through undecoded. The run persists nothing, and `end` logs the lengths of the two references (19 and 21) as their counts (`Ingest.SuffixTaggedTaskSavesNothing`).
- With `/tmp/carelink.csv` and `https://host/dexcom`, a first archive whose decoder fails before emitting anything and a second that decodes ten readings, the run goes on past the failure and the counts are 0 and 10 (`Ingest.TaskContinuesPastFailedArchive`).

## Model

| member | source | states |
|---|---|---|
| Records.Hasher.Update | lib/children/ingest.js:128-130 | successive `update` calls feed the concatenation of their parts; a finished hasher cannot be updated |
| Records.Hasher.Digest | lib/children/ingest.js:131-132 | the digest is the hash of everything fed so far; afterwards the hasher is finished, which is why `persist` creates a new one |
| Records.Hasher.constructor | lib/children/ingest.js:125 | `crypto.createHash('sha1')` gives an unfinished hasher with nothing fed, over the hash function |
| Records.Entry.constructor | lib/children/ingest.js:114 | a decoder emits a fresh entry object holding the decoded fields |
| Records.ValueStringForm | lib/children/ingest.js:129 | `ValueString`, the model of `String(value)` (also at lib/entries.js:16): a string is itself; a safe integer is a `-` exactly when it is negative, followed by decimal digits with no leading zero (zero is `0`) that read back as its magnitude |
| Records.NoLeadingZero | lib/children/ingest.js:129 | the decimal digits of a nonzero number do not start with `0` |
| Records.DecimalDigitsRoundTrip | lib/children/ingest.js:129 | the decimal digits `String` writes for a natural number read back as that number |
| Store.Upsert | lib/children/ingest.js:139 | `save` of a keyed entry: the key now holds the entry, every other key keeps its row, no other key is added |
| Store.DeviceStore.Save | lib/children/ingest.js:139 | `db.deviceData.save` updates the collection in place as `Upsert` |
| Store.WithoutGroup | lib/children/ingest.js:29 | `remove({groupId})` deletes every row of the group and keeps every other row unchanged; every row left is the original row under its key |
| Store.DeviceStore.Remove | lib/children/ingest.js:29-32 | the collection after `remove`: filtered when the database succeeds, untouched when it reports an error, which is handed back |
| Store.SaveAllContents | lib/children/ingest.js:139 | `SaveAll`, a sequence of saves: afterwards, each written key holds the last entry saved under it and every other row is unchanged |
| Store.SaveAllAppend | lib/children/ingest.js:87 | saving two batches one after the other is saving their concatenation |
| Store.SaveAllOverwrites | lib/children/ingest.js:139 | the same saves over two stores that agree off the written keys give equal stores |
| Ingest.TailIsLastSegment | lib/children/ingest.js:53 | `Tail`, the model of `url.split('/').pop()`, has no `/`, is a suffix of the reference, and is preceded by a `/` when shorter than it |
| Ingest.TailAfterLastSlash | lib/children/ingest.js:53 | whatever precedes the last `/` is ignored |
| Ingest.Route | lib/children/ingest.js:56-84 | a decoder is selected exactly when the last segment equals its tag, so at most one is; no decoder iff it equals none |
| Ingest.TaggedNameRoutes | lib/children/ingest.js:53-84 | whatever precedes the last `/`, a last segment equal to a tag selects that tag's decoder |
| Ingest.UntaggedNameDoesNotRoute | lib/children/ingest.js:53-99 | whatever precedes the last `/`, a last segment equal to no tag selects no decoder, so the reference is passed through |
| Ingest.SuffixDoesNotRoute | lib/children/ingest.js:56-84 | a last segment that only ends with a tag (`a_carelink.csv`, `b_dexcom`) selects nothing |
| Ingest.TagsAreCaseSensitive | lib/children/ingest.js:56 | `Diasend.xls` does not select the Diasend decoder |
| Ingest.ExactTagRoutes | lib/children/ingest.js:69-83 | a path or URL ending in `/carelink.csv` or `/dexcom`, and a bare `dexcom`, select their decoders |
| Ingest.MarkedUp | lib/children/ingest.js:115 | markup sets `groupId` to the task's group and changes no other field |
| Ingest.MarkupAll | lib/children/ingest.js:113-119 | markup emits one entry per input, in order, each stamped, none rejected |
| Ingest.Markup | lib/children/ingest.js:114-117 | the in-place update of the entry object is `MarkedUp` |
| Ingest.Identify | lib/children/ingest.js:124-137 | persist throws exactly when `_id` is absent and the group, or both `id` and one of `type`/`deviceTime`, is missing; otherwise the entry gets an `_id`, keeps every other field, and keeps `id` when present |
| Ingest.PersistKeepsKeyedEntry | lib/children/ingest.js:126-139 | an entry that has `_id` is saved with `id` and `_id` unchanged |
| Ingest.PersistKeysById | lib/children/ingest.js:134-136 | an entry with `id` and no `_id` keeps `id` and gets `_id = H(id ‖ groupId)` |
| Ingest.PersistDerivesBothIds | lib/children/ingest.js:127-136 | an entry with no identifiers gets `id = ContentId`, that is `H(type ‖ String(value) ‖ deviceTime)`, and then `_id = StorageKey`, that is `H(id ‖ groupId)` |
| Ingest.PersistKeyDeterministic | lib/children/ingest.js:127-136 | for entries without identifiers, `id` and `_id` depend on type, value, device time and group alone |
| Ingest.PersistTwiceOneRow | lib/children/ingest.js:126-139 | persisting a persisted entry again keeps it as is, and saving it twice leaves the store as saving it once |
| Ingest.PersistGroupIsolation | lib/children/ingest.js:134-136 | under an injective hash, the same reading in two groups gets two keys |
| Ingest.KeysIgnoreFieldBoundaries | lib/children/ingest.js:128-135 | whatever the hash, parts are joined without separators, so different field splits of one text share `id`, and different (id, group) pairs share `_id` |
| Ingest.AssignKeys | lib/children/ingest.js:125-137 | the in-place identifier assignment, with one hasher per digest, leaves the entry as `Identify` says, or reports the throw |
| Ingest.Persist | lib/children/ingest.js:122-145 | the entry object ends as `Identify` says and is upserted under its `_id`; on a throw nothing is saved |
| Ingest.IdentifyAll | lib/children/ingest.js:122-145 | an archive's entries are all keyed unless one of them makes `persist` throw |
| Ingest.ArchiveResultOf | lib/children/ingest.js:85-99 | an unrouted reference is its own result; a routed archive has a result iff no decoded record makes `persist` throw, and then yields one stamped, keyed entry per decoded record, in order |
| Ingest.IngestRecord | lib/children/ingest.js:87 | one decoded record through markup and persist: its identified entry, upserted |
| Ingest.IngestArchive | lib/children/ingest.js:87-96 | the archive's entries, in order, are what `IdentifyAll` gives, and the store is the old one with them saved in order |
| Ingest.ProcessArchive | lib/children/ingest.js:52-100 | `ingest`'s iterator yields `ArchiveResultOf` and saves exactly that result's entries |
| Ingest.RunResults | lib/children/ingest.js:34-35 | the task's results are one per archive, in task order, unless a persist throws |
| Ingest.SavedStamped | lib/children/ingest.js:115 | every entry a run saves carries the task's group and a key |
| Ingest.FailedArchiveKeepsPrefix | lib/children/ingest.js:89-96 | a decoder error after `m` records keeps the entries of those `m` records as the archive's result |
| Ingest.FailureIsolated | lib/children/ingest.js:89-93 | a decoder error in one archive changes no other archive's result and does not stop the task |
| Ingest.ResyncReplacesGroup | lib/children/ingest.js:29-35 | after a sync the group's rows are exactly entries of this run, every entry of the run is stored, and other groups' rows not overwritten are unchanged |
| Ingest.ResyncIdempotent | lib/children/ingest.js:24-37 | syncing the same task again with the same decoder output leaves the store as the first sync left it |
| Ingest.SuffixTaggedTaskSavesNothing | lib/children/ingest.js:53-99 | the references `/tmp/a_carelink.csv` and `https://host/b_dexcom` are passed through, nothing is saved, and the counts are 19 and 21 |
| Ingest.CompleteReadingsPersist | lib/children/ingest.js:126-136 | decoded readings that each carry `type` and `deviceTime` all get through `persist` |
| Ingest.TaskContinuesPastFailedArchive | lib/children/ingest.js:85-96 | with exact tags, a failed first archive and ten readings in the second, the run goes on and the counts are 0 and 10 |
| Ingest.End | lib/children/ingest.js:148-158 | exit code 255 iff an error was passed, else 0; one count per result, in order, each `RecordCount` (`e.length`: the number of entries, or the length of a passed-through reference); the number of files |
| Ingest.IngestAll | lib/children/ingest.js:34-35 | the archives go through the pipeline in task order; the results are `RunResults` and the store has all their entries saved in order |
| Ingest.Sync | lib/children/ingest.js:24-37 | a failed wipe changes nothing and ingests nothing; otherwise the store is the wiped store with the run's entries saved, every saved entry is in the group, and `end` reports exit code 0 with the per-file counts |
| Entries.Pad | lib/entries.js:12 | a number zero-padded to at least the field width, all digits |
| Entries.Power10 | lib/entries.js:12 | `10^k` is written with exactly `k + 1` decimal digits |
| Entries.PadValue | lib/entries.js:12 | the padded field is zeros followed by the number's own decimal digits |
| Entries.PadRoundTrip | lib/entries.js:12 | the padded field reads back as the number it pads |
| Entries.FormatShape | lib/entries.js:12 | `Format`, the default device time of a calendar clock reading, is nineteen characters shaped `YYYY-MM-DDTHH:mm:ss`, each field the padded clock field |
| Entries.FormatReadsBack | lib/entries.js:12 | each field of `Format` reads back as the year, month, day, hour, minute and second of the clock reading |
| Entries.WithDeviceTime | lib/entries.js:12 | `deviceTime` is replaced by the formatted clock only when falsy, kept when truthy, truthy afterwards; no other field changes |
| Entries.AddedKey | lib/entries.js:13-24 | hashing throws exactly when the group is missing, or `_id` and `type` both are |
| Entries.Added | lib/entries.js:12-24 | `add` changes only `deviceTime` and `_id`; `deviceTime` is kept when truthy and defaulted to the formatted clock otherwise; it throws as `AddedKey` says and then leaves `_id` alone; a stored entry has an `_id` |
| Entries.HashKey | lib/entries.js:13-24 | the successive `update`s on one hasher compute `AddedKey` of the entry |
| Entries.Add | lib/entries.js:11-26 | the entry object ends as `Added` says, with `deviceTime` set even on a throw, and the store is upserted under the new `_id` only when it was computed |
| Entries.AddKeysByContent | lib/entries.js:12-19 | with no `_id`, `_id = H(type ‖ String(value) ‖ deviceTime ‖ groupId)` over the final device time, and `id` is neither read nor set |
| Entries.AddKeyDeterministic | lib/entries.js:14-19 | equal type, value, truthy device time and group with no `_id` give equal keys at any clock reading |
| Entries.AddDefaultTimeDefeatsDedup | lib/entries.js:12-19 | under an injective hash, a reading without a device time added at two clock readings that format differently gets two keys |
| Entries.AddRehashesKey | lib/entries.js:20-23 | an entry with `_id` is stored under `H(old _id ‖ groupId)` |
| Entries.AddAgainRekeys | lib/entries.js:20-23 | adding the stored object again keeps its device time and moves it to `H(previous _id ‖ groupId)` |
| Entries.AddTwiceTwoRows | lib/entries.js:20-25 | `add` is not idempotent: for a sample hash, adding one object twice leaves rows under two keys |
| Entries.AddGroupIsolation | lib/entries.js:14-19 | under an injective hash, the same reading added for two groups gets two keys |
| Entries.PersistAndAddDisagree | lib/entries.js:14-19 | under an injective hash, `add` and `persist` give a new reading the same key iff the hash maps the content text to itself |

## Left out

- Downloading, in `download`: the file read or HTTPS request is I/O. An archive's bytes reach the model only as the decoder output for it.
- The vendor decoders (Diasend via rx, CareLink via rx, Dexcom stream) are foreign libraries. Each archive's outcome is an input: the records emitted, and whether an error followed.
- The decoder streams' own mid-stream behaviour is not modelled. Records emitted before an error are persisted as usual.
- event-stream mechanics are not modelled:
  - `es.map` may run archives concurrently, and backpressure and teardown are concurrency plumbing. The archives run as a sequential loop in task order.
  - After a decoder error the iterator calls `next()` and later `next(null, results)`. Which call's value reaches `end` depends on event-stream internals that are not part of this model. The model takes the array of entries persisted from the archive.
- SHA-1 and base32hex (`crypto`, `amoeba`) are one uninterpreted function `Hash`. Injectivity is never taken for granted. It appears only as an explicit precondition of the group-isolation lemmas, the disagreement lemma and `Entries.AddDefaultTimeDefeatsDedup`.
- The clock reading behind `moment()` is a parameter. Time zones and moment's rendering of years beyond 9999 are not modelled.
- `String(value)` is modelled for strings, safe integers (`|n| <= 2^53 - 1`), booleans, `null` and `undefined`. Floating-point numbers, integers beyond the safe range (which a JavaScript number holds inexactly, and which `String` writes in exponent notation from `1e21`) and objects are left out.
- `Ingest.RecordCount` counts a passed-through reference in characters. JavaScript's `length` counts UTF-16 code units, so the two differ for characters outside the Basic Multilingual Plane.
- `Ingest.Sync` never passes an error to `end`. Teardown of the stream before its end (event-stream's `writeArray` reporting 'destroyed before end') is not modelled.
- The MongoDB connection is not modelled.
- `tasks.get` is not part of this model. `sync` receives the task directly, so a lookup error is not modelled.
- Logging is not modelled.
- `process.exit` is not modelled. `end`'s exit code is returned in a report.
- Command-line parsing (exit status 1 on a missing task id) is not modelled.
- `animas` is dead code that refers to an undefined `diasend`.
- A `save` error is not modelled: the store is taken to accept every save. This covers the error handed to `next` in `persist` and the callback in `add`.
- `Ingest.Persist` does not describe the entry object after a throw. Such a throw ends the whole process, and the object is never used again.
- `Ingest.Sync` does not describe the store after `persist` throws (the `Crashed` outcome). The process dies with the entries saved so far.
- `Ingest.IngestAll` and `Ingest.IngestArchive` likewise leave the store unspecified when they return `None`.
- `Ingest.Sync` models a failed `remove` as changing nothing. The exit status Node gives the uncaught exception is not modelled.
- `Store.DeviceStore.Remove` does not describe a partially applied remove.
