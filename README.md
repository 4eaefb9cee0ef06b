# Audio notes: a verified model of the note repository

The application records voice memos, transcribes them, and stores each note
as a point of the Qdrant collection `notes`. The point holds an embedding of
the note's text and the payload `{text, created_at}`. Notes are read back in
two ways. Without a query they are scrolled and shown newest first. With a
query the store runs a similarity search and the notes come back in the
store's ranking, each with its score.

This project models the Python code around those store calls:

- the store as an in-memory table `map<int, Point>` plus a "collection exists" flag (`Store.NoteStore`);
- note creation with a millisecond id, and deletion;
- the two listing paths, the payload defaults and the stable newest-first sort;
- collection bootstrap;
- the text-extraction tail of `transcribe_audio`, as a pure function over a variant of Python values;
- the session-state rules of the note page, as a class (`Session.NoteSession`).

Everything outside the program is passed in as a parameter:

- the wall clock (`seconds: real`);
- the embeddings (`Option<Embedding>`, where `None` means the embedding call raised);
- the transcription answer (`Transcript.Response`);
- the store's ranked search answer (`hits`);
- the MD5 function (`md5: Bytes -> Digest`);
- whether the store is reachable (`reachable`).

The model takes these facts about Qdrant as given and writes them into the
operations:

- upsert replaces by id;
- deleting an absent id is a no-op;
- scroll without an ordering key returns the stored points with the `limit` smallest ids, in ascending id order, or every point when there are fewer than `limit`;
- a search answer arrives already ranked, and the model passes the hits through unchanged;
- point ids are unsigned, so a request with a negative id is refused, before the collection is looked up;
- an operation on a collection that does not exist fails.

Files and modules:

- `wrappers.dfy` (`Wrappers`): `Option` and `Result`.
- `notes.dfy` (`Notes`): the data model, the millisecond id, record normalisation, upsert and delete on the table, the newest-first ordering and the stable sort, and the two loops that build records.
- `transcript.dfy` (`Transcript`): transcript extraction.
- `store.dfy` (`Store`): the client configuration check, the listing specification and its lemmas, and the `NoteStore` class.
- `session.dfy` (`Session`): the `NoteSession` class.

Four behaviours of the code, which the model follows, are easy to miss:

- `add_note_to_db` itself does not reject empty text. Only the page's save step skips an empty note (`NoteSession.Save`).
- A point with no `created_at` is not left unordered. It is listed as `created_at = 0`, so it sorts after every note with a positive `created_at`, and among the notes at `0` it keeps the scroll's ascending id order.
- The search path does not cut the results to a limit. It returns exactly the hits the store gave.
- The chronological listing is not the 100 newest notes. The scroll takes the 100 smallest ids, and an id is the millisecond clock, so once the collection holds more than 100 notes the listing shows the 100 oldest, newest first. The newest note, including one just added, is then not listed (`Store.NewestNoteIsHiddenPastLimit`, `Store.AddedNoteIsHiddenPastLimit`). The sort at line 182 only orders the page it is given.

## Model

| member | source | states |
|---|---|---|
| `Notes.NotePoint` | notatki_app.py:143-150 | the point written for a note carries the text, the id as `created_at` and the given embedding |
| `Notes.MillisTimestamp` | notatki_app.py:139 | the id is the wall clock in milliseconds, truncated toward zero: for a non-negative clock `id <= 1000*t < id + 1`, and the mirror image below zero |
| `Notes.NoteReadsBack` | notatki_app.py:144-149 | the point written for a note reads back as a listing entry with the note's text and its own id as `created_at` |
| `Notes.Upsert` | notatki_app.py:140-152 | after the upsert the id maps to the new point, the key set gains only that id, and every other point is unchanged |
| `Notes.Remove` | notatki_app.py:156-159 | the id is gone, only that key is removed, every other point is unchanged, and deleting an absent id leaves the table equal to before |
| `Notes.RemoveUndoesUpsert` | notatki_app.py:139-159 | deleting a note added under a fresh id gives back the table as it was |
| `Notes.ToRecord` | notatki_app.py:175-180 | a missing payload counts as empty, a missing `text` becomes `""`, a missing `created_at` becomes `0`, and the id and the given score are carried over |
| `Notes.WithCreatedAtFilters` | notatki_app.py:182 | the run of a `created_at` holds exactly the input's entries with that `created_at` |
| `Notes.WithCreatedAtConcat` | notatki_app.py:182 | taking the run of one `created_at` distributes over concatenation |
| `Notes.StableOrderIsUnique` | notatki_app.py:182 | two newest-first sequences with the same runs per `created_at` are equal, so a stable descending sort has exactly one possible result |
| `Notes.InsertNewestFirst` | notatki_app.py:182 | inserting after every entry at least as new keeps the order newest first, adds exactly that entry, and keeps each run as if the entry came last |
| `Notes.SortNewestFirst` | notatki_app.py:182 | the sorted records are in non-increasing `created_at` order, are a permutation of the input, and keep the input order among equal `created_at` (a stable sort) |
| `Notes.StableSortOfAscendingIds` | notatki_app.py:166-182 | a stable newest-first ordering of records in ascending id order puts entries sharing a `created_at` in ascending id order |
| `Notes.RecordsFromScroll` | notatki_app.py:173-181 | one record per scrolled point, in scroll order, with the payload defaults and `score = None` |
| `Notes.RecordsFromSearch` | notatki_app.py:194-203 | one record per hit, in the store's ranking order, with the payload defaults and that hit's score |
| `Store.Blank` | notatki_app.py:165 | Python's `not x` on an optional string: true exactly for `None` and `""` |
| `Store.Connect` | notatki_app.py:47-52 | the client is built exactly when both the URL and the API key are set and non-empty, from those values; otherwise it fails with a configuration error before any store call |
| `Store.IdsOf` | notatki_app.py:177 | the set of ids a listing shows holds the id of every entry and nothing else |
| `Store.DistinctIdsCount` | notatki_app.py:166-171 | a listing with distinct ids shows as many ids as it has entries |
| `Store.ListingIsComplete` | notatki_app.py:165-183 | when the table holds at most 100 points, the chronological listing shows every stored id |
| `Store.AddedNoteIsListed` | notatki_app.py:139-183 | after adding a note, a chronological listing of a table of at most 100 points contains the entry with that text, the id as `created_at` and no score |
| `Store.NewestNoteIsHiddenPastLimit` | notatki_app.py:165-183 | when the table holds more than 100 points, the point with the largest id is not in the chronological listing |
| `Store.AddedNoteIsHiddenPastLimit` | notatki_app.py:139-183 | when the table already holds at least 100 notes, all with earlier ids, a note just added is not in the next chronological listing |
| `Store.DeletedNoteIsNotListed` | notatki_app.py:154-183 | after deleting an id, no entry of a chronological listing has that id |
| `Store.ListingFromSorted` | notatki_app.py:173-183 | sorting the records of a scrolled page keeps them distinct stored points, normalised and unscored, with the smallest ids, and puts them newest first with ties in `created_at` in ascending id order |
| `Store.NoteStore.constructor` | notatki_app.py:60-62 | a store starts without the collection, the case that bootstrap tests for, and with no points |
| `Store.NoteStore.EnsureCollection` | notatki_app.py:59-77 | the collection is created only when absent (`Created`), is found when present (`AlreadyExists`), nothing changes when the store is unreachable, and the points are untouched |
| `Store.NoteStore.AddNote` | notatki_app.py:134-152 | a failed embedding, a negative id (a clock before 1970) or a missing collection fails in that order and changes nothing; otherwise the id is the millisecond clock and the table is the old table with one point upserted under that id, `{text, created_at: id}` and the embedding |
| `Store.NoteStore.DeleteNote` | notatki_app.py:154-159 | a negative id is refused and a missing collection fails, both changing nothing; otherwise the table becomes the old table without that id, and an absent id changes nothing |
| `Store.NoteStore.Scroll` | notatki_app.py:166-171 | returns `min(limit, number of points)` stored points, each with its stored payload, in strictly ascending id order, and every stored id left out is larger than every id returned |
| `Store.NoteStore.ListNotes` | notatki_app.py:161-203 | a blank query (`None` or `""`) takes the scroll path: the 100 stored points with the smallest ids (all of them when there are fewer), as distinct normalised unscored records, newest first, with entries sharing a `created_at` in ascending id order. Otherwise one record per hit in the store's order, each with its score. A failed query embedding or a missing collection is reported as an error |
| `Store.BootstrapTwice` | notatki_app.py:59-72 | bootstrapping twice creates the collection at most once; the second run finds it and the points are unchanged |
| `Store.AddThenDelete` | notatki_app.py:134-159 | adding a note under a fresh id and then deleting that id leaves the table as it was; a clock before 1970 makes the add fail with `InvalidId` |
| `Transcript.FirstItemText` | notatki_app.py:131 | a truthy `.text` of the first `data` element wins; otherwise the element's `"text"` key if it is a dictionary; otherwise `None` |
| `Transcript.RawText` | notatki_app.py:120-131 | a dictionary is read at `"text"`; an object's `.text` is taken unless it is `None`; then a `data` dictionary's `"text"`, then a non-empty `data` list's first element; anything else gives `None` |
| `Transcript.ExtractText` | notatki_app.py:117-132 | `""` when the call raised or when the chain does not end on a string; otherwise exactly the string the chain found |
| `Transcript.RaisedGivesEmpty` | notatki_app.py:117-119 | a transcription call that raised yields an empty transcript |
| `Transcript.DictUsesTopLevelText` | notatki_app.py:121-122 | a dictionary answer yields its top-level `"text"` when that is a string, and `""` otherwise |
| `Transcript.TextAttributeFirst` | notatki_app.py:123-124 | a string `.text` attribute is returned whatever `data` holds |
| `Transcript.NonStringTextAttributeGivesEmpty` | notatki_app.py:124-132 | a `.text` attribute that is neither `None` nor a string stops the fallback and yields `""` |
| `Transcript.DataDictFallback` | notatki_app.py:125-128 | with no usable `.text`, a `data` dictionary supplies its `"text"` |
| `Transcript.DataListFallback` | notatki_app.py:129-131 | with no usable `.text`, a non-empty `data` list supplies its first element's non-empty `.text`, or else that element's `"text"` key if it is a dictionary |
| `Transcript.OtherShapesGiveEmpty` | notatki_app.py:120-132 | an answer that is neither a dictionary nor an object yields `""` |
| `Transcript.ExtractedTextIsOffered` | notatki_app.py:120-132 | a non-empty transcript is always a string found at one of the places the chain inspects |
| `Session.NoteSession.constructor` | notatki_app.py:237-245 | the session starts with no audio, no fingerprint and an empty note; the transcript key is not set yet |
| `Session.NoteSession.OnRecording` | notatki_app.py:279-286 | the recording's bytes and fingerprint are stored; a changed fingerprint clears the transcript and the note, an unchanged one keeps both; a transcript value exists from then on |
| `Session.NoteSession.Transcribe` | notatki_app.py:290-291 | the transcript becomes what the extraction yields for the service's answer |
| `Session.NoteSession.Edit` | notatki_app.py:293-294 | the note text takes the edited value only while the transcript is non-empty |
| `Session.NoteSession.Save` | notatki_app.py:296-302 | an empty note saves nothing and changes nothing. Otherwise the note is added to the store: a failed embedding gives `EmbeddingFailure`, a negative id `InvalidId`, a missing collection `CollectionMissing`, and otherwise the add succeeds with the millisecond id. On success the note is upserted, the note and transcript become `""` and the audio and its fingerprint become `None`. A failed add changes nothing |

## Left out

- Streamlit rendering, layout, styles, menus, buttons, toasts and `st.rerun`/`st.stop` (lines 207-330 apart from the session rules): user-interface plumbing. The save button appears as the empty-note guard of `Save`, the transcription button as a call of `Transcribe`, and the text area that appears once a transcript exists as the guard of `Edit`.
- Loading secrets from `.env` and `st.secrets`, and the API-key prompt (lines 16-30, 79-89): environment I/O.
- Building and caching the OpenAI and Qdrant clients (lines 44-57): calls into foreign libraries. The model keeps only the fail-fast test of lines 50-51 (`Store.Connect`). A `NoteStore` object stands for a connected client.
- The embedding and transcription calls (lines 91-119): remote services. Their results are parameters, and the model does not check the 3072-component dimension.
- Cosine similarity and scores: floating point computed remotely. A score is an opaque `real` that is passed through, and the store supplies the ranking.
- MD5 hashing: an abstract function parameter of the bytes.
- Python floats: the clock is an exact `real`, so rounding of `time.time() * 1000` is not modelled.
- Unique ids when two notes are written in the same millisecond or by concurrent writers: the code makes no promise here, and an upsert under an existing id replaces that note.
- Payload values of unexpected types (a non-string `text`, a non-integer `created_at`): the app only ever writes a string and an integer, so the payload fields are modelled with those types.
- The collection's name `notes` and its vector configuration (3072 components, cosine distance, lines 64-69): the model has one collection and keeps only whether it exists.
- `print` diagnostics in `assure_db_collection_exists`: they become the `Created` and `AlreadyExists` outcomes.
- Store.NoteStore.ListNotes: on the search path it does not state that the hits are at most 100 or are ranked by score. Both come from the store, which is a parameter here.
- Notes.SortNewestFirst: Python sorts the list in place. The model builds the sorted sequence by stable insertion, and `Notes.StableOrderIsUnique` shows that the result is the same as any stable sort.
- Python truthiness of objects: every object is taken to be truthy. No response class defines `__bool__` or `__len__`.
