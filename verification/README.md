# In-memory notes repository, modelled in Dafny

This project models the storage core of a small personal-notes web service.
That core is the `Note` record and the `InMemoryNotesRepository` holding it.
The repository is a dictionary from integer id to note plus a counter for the next id.
It has five public operations: `list(q, include_archived)`, `get(id)`, `create(payload)`, `update(id, payload)` and `delete(id)`.
Each one runs under a single lock, so the model treats every call as one atomic transition.
A call takes a repository value to a new repository value and a result: `Step(repo, out)`.
`get` and `list` change nothing, so they are pure functions returning only their result.

Modules, one per concern:

| file | module | what it holds |
|---|---|---|
| `wrappers.dfy` | `Wrappers` | `Option` |
| `pystr.dfy` | `PyStr` | Python's `str.strip()`, `str.lower()` and the substring test `needle in hay` |
| `pydict.dfy` | `PyDict` | a Python `dict` with integer keys that remembers key-insertion order |
| `models.dfy` | `Models` | `Note`, `Note.from_payload`, `Note.to_dict` |
| `listing.dfy` | `Listing` | the filters and the stable newest-first sort behind `list` |
| `storage.dfy` | `Storage` | the repository state, its invariant and the five operations |
| `laws.dfy` | `Laws` | properties relating several operations |
| `traces.dfy` | `Traces` | arbitrary sequences of mutating calls: validity kept, ids increasing and fresh |
| `scenarios.dfy` | `Scenarios` | concrete runs: trimming, the "Untitled" default, partial update, listing order |

Modelling choices:
- **Clock.** The clock `_now_iso()` is replaced by readings passed in as parameters, and timestamps are `nat`.
  - `create` takes two readings: `created_at` and then `updated_at`. Each is a separate default factory of the dataclass.
  - `update` takes one reading.
  - "The clock does not run backwards" is a hypothesis only of the lemmas that keep `created_at <= updated_at` (`ClockNotBehind`, `MonotoneClock`). It is not a precondition of any operation.
- **Dictionary order.** The dictionary keeps its insertion order because `list` starts from `list(self._notes.values())`.
  - Re-assigning an existing key keeps its position, and `pop` removes the key.
  - Ids are handed out in increasing order, so the stored order is ascending id (`Storage.Structural`).
  - Python's sort is stable, so notes with equal `updated_at` are listed in ascending id.
- **Request payloads.** A payload field is `Absent`, `Null` (JSON null) or `Text(s)`. For `update`, `archived` is `Option<bool>`.
- **Invariants.** There are two.
  - `Storage.Structural`: keys are the notes' ids, lie below the counter, and were inserted in ascending order. It holds of every repository reachable from `__init__`, whatever the clock does (`Traces.RunKeepsStructural`). `list` relies on it, so `Storage.Select` and `Storage.List` require it.
  - `Storage.Valid`: `Structural`, plus every note is trimmed and has `created_at <= updated_at`. It holds of every repository reachable under a clock that never runs backwards (`Traces.RunKeepsValid`).
- **Snapshots.** A snapshot (`to_dict()`) is a map from the six field keys to values. `Models.Name` gives the dictionary key string for each field.

## Model

| member | source | states |
|---|---|---|
| PyStr.Strip | backend/app/models.py:45-46 | the result of `strip()` has no whitespace at either end and is no longer than the input |
| PyStr.StripTrims | backend/app/storage.py:72-73 | `strip()` keeps a contiguous run of the input and removes only whitespace on either side of it |
| PyStr.StripSurrounded | backend/app/storage.py:72-73 | any stripped text surrounded by whitespace strips back to exactly that text (the converse of StripTrims) |
| PyStr.StripKeepsStripped | backend/app/models.py:45-46 | text without surrounding whitespace is left unchanged, so `from_payload` re-stripping the fields `create` already stripped changes nothing |
| PyStr.StripIdempotent | backend/app/storage.py:103 | stripping twice is stripping once |
| PyStr.LStripDropsSpace | backend/app/storage.py:72 | `lstrip()` removes exactly a whitespace prefix and keeps the remaining suffix |
| PyStr.RStripDropsSpace | backend/app/storage.py:72 | `rstrip()` removes exactly a whitespace suffix |
| PyStr.LowerShape | backend/app/storage.py:38 | lower-casing keeps the length and leaves no upper-case ASCII letter |
| PyStr.LowerIdempotent | backend/app/storage.py:41 | lower-casing an already lower-cased string changes nothing |
| PyStr.Contains | backend/app/storage.py:41 | the left-to-right scan answers true exactly when the needle occurs at some index of the haystack (both directions) |
| PyDict.GetAfterPut | backend/app/storage.py:83 | after `d[k] = v`, `d.get(k)` is `v` and `d.get(j)` for every other `j` is as before |
| PyDict.GetAfterPop | backend/app/storage.py:124 | after `d.pop(k, None)`, `d.get(k)` is None and `d.get(j)` for every other `j` is as before |
| PyDict.Put | backend/app/storage.py:83 | `d[k] = v` maps `k` to `v`; a new key is appended to the order, an existing key keeps its place; the order stays consistent |
| PyDict.Without | backend/app/storage.py:124 | removing a key from the order keeps exactly the other keys, never lengthens it, and keeps it ascending and distinct |
| PyDict.Pop | backend/app/storage.py:124 | `d.pop(k, None)` removes exactly `k`, returns what `get` would have, and keeps the order consistent and ascending |
| PyDict.ValuesAfterPut | backend/app/storage.py:32 | after `d[k] = v`, `list(d.values())` has a new key's value appended last, or an existing key's value replaced in its own slot with every other slot unchanged |
| Models.FromPayload | backend/app/models.py:38-47 | the note has the given id and is not archived; its title and content are `strip()` of the given text, "None" for a null and "" for an absent field, so they come out stripped and already-stripped text is kept; the timestamps are the two clock readings, in order when the readings are |
| Models.ToDict | backend/app/models.py:34-36 | the snapshot has exactly the six fields and reads back as the same note |
| Models.SnapshotKeyNames | backend/app/models.py:26-36 | the snapshot's keys, as `asdict` names them, are exactly `id`, `title`, `content`, `created_at`, `updated_at` and `archived` |
| Models.ToDictInjective | backend/app/models.py:34-36 | two notes have equal snapshots exactly when they are equal |
| Storage.Init | backend/app/storage.py:15-18 | a new repository holds no note, will hand out id 1 first, and satisfies the invariant |
| Storage.Get | backend/app/storage.py:58-60 | `get(id)` returns a snapshot exactly when the id is stored, and that snapshot reads back as the stored note |
| Storage.CreateFieldsAsWritten | backend/app/storage.py:72-77 | title and content as the code computes them: a JSON null title or content becomes "None", and the other field is then its trimmed given text (no "Untitled" default applies); both come out stripped; on every payload without a null they equal the corrected fields, so the "Untitled" default and the trimming of CreateFields hold of the code as written |
| Storage.NullTitleBecomesNone | backend/app/storage.py:72-77 | as written, a null title with no content is stored as "None", while the corrected fields give "Untitled", the same as an empty payload |
| Storage.CreateFields | backend/app/storage.py:72-77 | content is the trimmed given content; the title is the trimmed given title, or "Untitled" exactly when both trimmed texts are empty; both come out stripped |
| Storage.NewNote | backend/app/storage.py:82 | the stored note carries the new id, the computed title and content, the two clock readings, and is not archived; it is well formed when the readings are in order |
| Storage.Create | backend/app/storage.py:79-84 | the counter moves up by one; the new note, built from the corrected fields, is stored under the old counter value and nothing else changes; the returned snapshot reads back as that note |
| Storage.CreateLeavesOthers | backend/app/storage.py:83 | `get` of every other id is the same before and after `create` |
| Storage.CreateAddsOneKey | backend/app/storage.py:80-83 | on a repository whose keys are below the counter, `create` adds exactly one key, the fresh id |
| Storage.CreateKeepsStructural | backend/app/storage.py:79-84 | `create` keeps the repository structural whatever its clock readings |
| Storage.CreateKeepsValid | backend/app/storage.py:79-84 | `create` with ordered clock readings keeps the repository invariant |
| Storage.Merge | backend/app/storage.py:102-109 | each of title, content and archived that is given and not null is replaced (text trimmed); the rest is kept; id and `created_at` never change; `updated_at` becomes now; a well-formed note stays well formed under a clock not behind it |
| Storage.Update | backend/app/storage.py:97-111 | an unknown id returns None and changes nothing; a known id is replaced in place by the merged note, nothing else changes, and the returned snapshot reads back as it; the counter never moves; the structure is kept always, and the full invariant under a clock not behind |
| Storage.Delete | backend/app/storage.py:123-124 | returns true exactly when the id was stored; afterwards the id is gone and everything else is as before; the counter never moves; both invariants are kept |
| Storage.StoredNotes | backend/app/storage.py:32 | the dictionary's values are exactly the stored notes, in ascending id |
| Storage.Select | backend/app/storage.py:31-45 | the listed notes are exactly the stored notes that pass the archive filter and, for a non-empty query, contain it case-insensitively in title or content; newest `updated_at` first, ties by ascending id |
| Storage.List | backend/app/storage.py:46 | one snapshot per selected note, in the same order, each with the six fields, reading back as that note |
| Listing.DropArchived | backend/app/storage.py:34-35 | keeps exactly the unarchived notes, in their order |
| Listing.KeepMatching | backend/app/storage.py:37-42 | keeps exactly the notes whose lower-cased title or content contains the query, in their order |
| Listing.MatchesIsQuery | backend/app/storage.py:41 | the per-note scan agrees with "the lower-cased query occurs in the lower-cased title or content" |
| Listing.SortNewestFirst | backend/app/storage.py:44-45 | the sort is a permutation; on an id-ascending input the result is newest first with ties in ascending id |
| Listing.InsertNewestFirst | backend/app/storage.py:45 | inserting a note with a larger id than all placed ones behind every note updated at the same time or later keeps the order |
| Listing.NewestFirstUnique | backend/app/storage.py:44-45 | two newest-first sequences with the same members are equal, so the listing order is fully determined |
| Laws.GetAfterCreate | backend/app/storage.py:79-84 | `get` of the new id right after `create` returns what `create` returned |
| Laws.GetAfterUpdate | backend/app/storage.py:97-111 | `get` right after a successful `update` returns what `update` returned |
| Laws.DeleteThenGet | backend/app/storage.py:123-124 | after `delete(id)`, `get(id)` is None, and a second `delete(id)` returns false and changes nothing |
| Laws.IdsNeverReused | backend/app/storage.py:80-81 | after deleting any stored note, the next `create` still hands out the old counter value, which is larger than the deleted id; only the keys being below the counter is assumed, never the clock |
| Laws.UpdateMovesForward | backend/app/storage.py:109 | under a clock not behind, `update` never moves `updated_at` back, never changes `created_at`, and keeps `created_at <= updated_at` |
| Laws.EmptyUpdateTouchesOnlyTimestamp | backend/app/storage.py:102-109 | an update with nothing given, or only nulls, changes nothing but `updated_at` |
| Laws.UpdateMayBlankTitle | backend/app/storage.py:102-103 | `update` applies no "Untitled" default: a blank title is stored as "" |
| Laws.MergeIdempotent | backend/app/storage.py:102-109 | the same update applied twice at the same time equals applying it once |
| Laws.SearchIgnoresCase | backend/app/storage.py:38-41 | two queries with the same lower-case form list the same notes in the same order |
| Laws.ListAllOrUnarchived | backend/app/storage.py:34-35 | without a query, including archived notes lists every stored note; excluding them lists exactly the unarchived ones |
| Laws.CreatedNoteIsListed | backend/app/storage.py:79-84 | a freshly created note is listed when no query is given, whether or not archived notes are included and whatever the clock readings; the repository stays structural |
| Traces.ApplyKeepsValid | backend/app/storage.py:79-124 | each mutating call, with its clock readings in order, keeps the invariant |
| Traces.RunKeepsStructural | backend/app/storage.py:15-124 | every repository reached from a structural one by any run, whatever the clock does, is structural, so `list` applies to it |
| Traces.RunKeepsValid | backend/app/storage.py:15-124 | every repository reached from a valid one by any run under a monotone clock is valid |
| Traces.CreatedIdsIncrease | backend/app/storage.py:80-81 | the ids a run's `create` calls return are strictly increasing; they lie between the counter before and after the run, one per `create` |
| Traces.CreatedIdsFresh | backend/app/storage.py:80-81 | no id a run hands out was stored at its start, and no two are equal, whatever was deleted in between and whatever the clock did; only the keys being below the counter at the start is assumed |
| Scenarios.TrimExample | backend/app/storage.py:72-73 | `"  hello  "` is stored as `"hello"` |
| Scenarios.UntitledExample | backend/app/storage.py:75-77 | an empty payload, or one whose title is only blanks, gets the title "Untitled" |
| Scenarios.PartialUpdateExample | backend/app/storage.py:102-109 | updating only the content keeps the title, trims the new content and moves `updated_at` forward |
| Scenarios.NewestFirstExample | backend/app/storage.py:44-45 | notes created A, B, C and then A updated are listed A, C, B |

## Left out

- Concurrency: the lock only serialises calls. Each call is modelled as one atomic step, and `Traces` models any sequence of them.
- The module-level singleton `notes_repo`, the HTTP routes, and the request schemas are not part of this model. Their validation is left out too, including the 500-character title limit.
- ISO-8601 timestamp strings: `_now_iso()` is replaced by natural-number clock readings given as parameters, and the sort compares those numbers. The source sorts the strings. `isoformat()` omits the fractional part when the microseconds are zero, so two readings within the same second can compare in the wrong order as strings. The model does not reproduce that string order.
- PyStr.Lower: only ASCII letters are lower-cased. Python's `str.lower()` covers all of Unicode.
- PyStr.IsSpace: the whitespace set is written out from Python's `str.isspace()`. No Unicode database is consulted.
- Type coercions: `str(...)` of a non-string payload value and `bool(...)` of `archived` are not modelled. Payload text is a string or null, and `archived` is a boolean or null.
- Storage.Get: returns only the snapshot. The lock and the repository stay untouched, as in the source.
- Storage.Select: returns notes and Storage.List returns their snapshots. In the source, `to_dict()` returns a copy (`asdict`), so a caller that changes a returned dictionary does not change the stored note. In the model every snapshot is an immutable value, so it can never alias a stored note, and no separate copy property is stated.
- Storage.Update: the stored note is replaced by a merged value. The source mutates it in place. No snapshot handed out earlier aliases it, so the two cannot be told apart.
- Storage.Create: builds the note from the corrected fields of the Findings row (`Storage.CreateFields`), where a JSON null counts as absent. The code as written stores "None" for a null title, and `Storage.CreateFieldsAsWritten` models that. Everything in `Laws` and `Traces` is therefore about the corrected `create`. On payloads without a null the two agree (`Storage.CreateFieldsAsWritten`).

## Findings

| source | as written | input that shows it | evidently intended | confidence | as-written member | corrected member |
|---|---|---|---|---|---|---|
| backend/app/storage.py:72-77 | `str(payload.get("title", "")).strip()` turns a JSON null title, which the create schema admits (`allow_none=True`), into the text "None" | `create({"title": null})` stores the title "None" | null is treated like an absent field: the note gets "Untitled", as `update` already treats null as "not given" | not executed | Storage.CreateFieldsAsWritten, Storage.NullTitleBecomesNone | Storage.CreateFields |
