# Photo diary entry store — Dafny model

A Dafny model of the list handling in the photo diary app (`main.py`). The app
keeps its diary entries in one JSON document. Each entry is a dictionary with
the keys `id`, `path`, `note`, `category`, `date` and `datetime_original`. The
UI callbacks load the whole list, change it in memory and write it back. The
model covers:

- the **gallery query**: the list is sorted newest first by `date` (the
  `strptime` format `%d.%m.%Y %H:%M`, with Python's stable `list.sort(...,
  reverse=True)`), then filtered by category (`"Все"` means every category) and
  by a case-insensitive substring search in the note or the category;
- **save**: the new entry gets a stripped note, a stripped category that falls
  back to `"Общее"`, an id and a date taken from the clock, and the EXIF
  capture time or a fallback. It is appended to the list. Nothing happens when
  there is no photo to save;
- **delete by id**: a list comprehension that drops every record carrying the
  id, plus removal of the photo file;
- **edit note**: a loop that sets the note of every record carrying the id.

Layout, one module per file:

- `wrappers.dfy`: `Option`.
- `seqs.dfy`: order-preserving filtering (`Filter`), subsequences and the generic lemmas about them.
- `text.dfy`: `str.strip()`, `str.lower()` and `needle in hay`.
- `dates.dfy`: timestamps, the three `strftime` layouts and the `strptime` parse.
- `sorting.dfy`: a stable sort into non-increasing key order, proved sorted, stable, a permutation and unique.
- `entries.dfy`: the `Entry` record, the document, load, building a new record, delete, edit.
- `query.dfy`: the gallery's match predicate, the selection and the newest-first sort of entries.
- `gallery.dfy`: class `GalleryScreen`, with the sorted list, the category filter, the search text and the shown cards.
- `diary.dfy`: class `PhotoDiaryApp`, with the document, the photo files on disk and the camera screen's fields.
- `scenarios.dfy`: lemmas stating what the sort and the filter make of two sample entries.

Points where the code behaves differently from what one might expect, and where the model follows the code:

- Editing a note updates **every** record with a matching id, not only the first one.
- `delete_entry` compares `e.get('id')` with the id, so a record without an id is never deleted, even by the id `""`.
- `save_edit` reads `e['id']`, so one record without an `id` key raises `KeyError`; the document is then not rewritten.
- When a `date` is missing or malformed, the gallery sort raises and the cards are not rebuilt.

Inputs that the code gets from its surroundings are parameters or fields:

- The three clock readings (`datetime.now()`) of a save are parameters.
- So is the EXIF tag map of the image.
- So is the outcome of `os.remove`.
- The photo files that exist on disk are a `set<string>` field.
- The document file is a `Document` value: missing, unreadable, or a stored list.

Ids have one-second resolution. Saves within the same second get the same id
(`FormatIdInjective`). Delete and edit then act on all of those records
(`DeleteByIdCharacterised`, `EditNoteEffect`).

## Model

| member | source | states |
|---|---|---|
| Text.StripCharacterised | main.py:179-180 | the stripped text neither starts nor ends with whitespace and is the input with only whitespace cut from either end |
| Text.StripUnique | main.py:179-180 | any trimmed infix surrounded only by whitespace is exactly the stripped text |
| Text.StripIdempotent | main.py:179-180 | stripping twice is stripping once |
| Text.LowerIdempotent | main.py:64-65 | lower-casing an already lower-cased text changes nothing |
| Text.LowerSlice | main.py:64-65 | a slice of the lower-cased text is the lower-cased slice of the text |
| Text.ContainsIffOccurs | main.py:64-65 | `needle in hay` holds iff the needle occurs at some index of the haystack (the empty needle always does) |
| Text.LowerContains | main.py:64-65 | the lower-cased search text is in the lower-cased note iff some slice of the note, as long as the search text, lower-cases to the lower-cased search text |
| Dates.Pad | main.py:193 | a zero-padded field has exactly the width, only digits, and reads back as the number written |
| Dates.FormatDisplay | main.py:193 | the `%d.%m.%Y %H:%M` rendering of a valid timestamp has 16 characters |
| Dates.FormatId | main.py:189 | the `%Y%m%d%H%M%S` id has 14 characters, all digits |
| Dates.FormatExif | main.py:160 | the `%Y:%m:%d %H:%M:%S` fallback capture time has 19 characters |
| Dates.FormatExifFields | main.py:160 | the fallback capture time holds year, month, day, hour, minute and second as digit fields at positions 0-3, 5-6, 8-9, 11-12, 14-15 and 17-18, separated by `:`, `:`, space, `:`, `:` |
| Dates.ParseDisplay | main.py:51 | a successful `strptime` yields a valid calendar timestamp with zero seconds |
| Dates.ParseFormatDisplay | main.py:51 | parsing the written date gives back the day, month, year, hour and minute it was written from |
| Dates.FormatParseDisplay | main.py:51 | a string that parses is exactly the rendering of its parse (the other direction of the round trip) |
| Dates.FormatIdInjective | main.py:189 | two ids are equal iff the clock readings agree to the second, so saves within one second collide |
| Sorting.SortDescending | main.py:51 | the sorted list is a permutation of the input |
| Sorting.SortDescendingOrdered | main.py:51 | after the sort the keys never increase |
| Sorting.SortDescendingStable | main.py:51 | elements sharing a key keep their relative order, even with `reverse=True` |
| Sorting.SortDescendingUnique | main.py:51 | any non-increasing arrangement that keeps each key's elements in input order equals the sort |
| Entries.ExifDate | main.py:150-160 | the capture time is never empty; a present non-empty `DateTimeOriginal` tag (36867) wins; otherwise it is the clock reading in the EXIF layout, since it is either that or the tag's value |
| Entries.ExifDateFallback | main.py:154-160 | with no EXIF block, no tag 36867 or an empty one, the capture time is the clock reading in the EXIF layout |
| Entries.NewEntryProperties | main.py:179-195 | a new record has every key; its note is the stripped input; its category is the stripped input, never empty, `"Общее"` exactly when the input is blank (or already says so); its date parses back to its creation minute |
| Entries.DeleteByIdCharacterised | main.py:246 | the result is a subsequence in original order; records with the id are all gone; every other record, id-less ones included, keeps its multiplicity; the length never grows and stays the same iff no record had the id |
| Entries.DeleteByIdIdempotent | main.py:246 | deleting an id twice is deleting it once |
| Entries.EditNote | main.py:266-268 | the edit keeps the number of records |
| Entries.EditNoteEffect | main.py:267-268 | every record with the id, duplicates included, gets the new note with all other fields unchanged; every other record is unchanged |
| Entries.EditNoteAbsent | main.py:267-268 | editing an id no record carries changes nothing |
| Entries.EditNoteLastWins | main.py:267-268 | of two edits of one id only the last is visible |
| Entries.DeleteAfterEdit | main.py:246 | edits keep ids, so deleting after an edit equals editing after the delete |
| Entries.EditNoteKeepsKeys | main.py:268 | editing changes no record's sort key |
| Query.SelectedCharacterised | main.py:60-67 | the shown entries form a subsequence in list order, with multiplicities; an entry is shown iff the filter is `"Все"` or equals its category, and the lower-cased search occurs in its lower-cased note or category (a missing one read as `""`) |
| Query.SelectedUnfiltered | main.py:55-69 | with filter `"Все"` and empty search every entry is shown, in list order |
| Query.SortNewestFirst | main.py:51 | the gallery order is a permutation of the loaded entries, each still with a parsable date |
| Query.SortNewestFirstOrdered | main.py:51 | dates never increase along the gallery order |
| Query.SortNewestFirstStable | main.py:51 | entries with equal dates keep their list order, so entries saved in the same minute stay oldest first |
| Query.SortNewestFirstUnique | main.py:51 | the gallery order is the only newest-first arrangement that keeps equal-date entries in list order |
| Query.SortNewestFirstEditNote | main.py:264-271 | editing a note never moves an entry: sorting an edited list equals editing the sorted one |
| Gallery.GalleryScreen.constructor | main.py:41-42 | the screen starts with no entries, filter `"Все"` and no cards |
| Gallery.GalleryScreen.UpdateData | main.py:47-53 | with all dates parsable, the list becomes the newest-first sort of the loaded list and the cards are its selection; otherwise the list stays as loaded and the cards are unchanged |
| Gallery.GalleryScreen.FilterGallery | main.py:55-69 | the loop rebuilds the cards as exactly the selection of the list under the current filter and the search text |
| Gallery.GalleryScreen.SetSearchText | main.py:55 | the search text becomes the field's new text and the cards are re-selected with it under the current filter |
| Gallery.GalleryScreen.SetCategoryFilter | main.py:83-87 | the filter becomes the chosen category and the cards are re-selected with the current search text |
| Diary.PhotoDiaryApp.constructor | main.py:112-119 | the app starts from the document and photo files found on disk, with no pending photo |
| Diary.PhotoDiaryApp.SaveCurrentEntry | main.py:176-204 | without a pending photo that exists, nothing changes; otherwise the document becomes the loaded list plus the new record at the end, and the note field and pending photo are cleared while the category field is kept |
| Diary.PhotoDiaryApp.DeleteEntry | main.py:238-249 | the photo file is gone if it existed and its removal succeeded; the document is the loaded list without the id; the gallery is refreshed from it |
| Diary.PhotoDiaryApp.SaveEdit | main.py:264-272 | with every record carrying an id, the document is the loaded list with every matching note replaced and the gallery is refreshed; one id-less record leaves document and gallery untouched |
| Scenarios.ScenarioSort | main.py:51 | of two sample entries from consecutive days, the later one is shown first |
| Scenarios.ScenarioSearch | main.py:60-67 | searching "gym" under `"Все"` shows only the entry whose note holds it |
| Scenarios.ScenarioCategory | main.py:60-67 | filter "Work" with an empty search shows only the entry of that category |

## Left out

- The layout rules that connect the search field to `filter_gallery` are not part of this model. `SetSearchText` stands for a change of the field's text followed by a re-filter.
- Kivy and KivyMD widgets and events are not modelled, as they hold no list logic. This covers screens, entry cards, dialogs, dropdown menus, toasts, the theme toggle, the window size and screen navigation (main.py:26-99, 217-236, 251-262, 274-282). So is the gallery refresh caused by switching to the gallery after a save.
- Camera capture and Android permission requests (main.py:123-147) are left out: they are calls into the host framework. A pending photo appears only as the `lastPhotoPath` field.
- Encoding and decoding JSON, and opening and writing files, are not modelled. The document is a value, a failing write is not modelled, and a JSON value that is not a string (or a document that is not a list) is not represented.
- Entries.LoadEntries: `load_entries` (main.py:163-170) is modelled by this case split over `Document`: a missing or undecodable file gives `[]` and a stored one its list. It states no property beyond that case split. The `Diary` methods use it as `LoadEntries(old(document))`.
- `export_data` (main.py:207-214) is not modelled. It only rewrites the loaded list to a second path.
- Reading EXIF data from the image (PIL) is a foreign library. `ExifDate` takes the decoded tag map, with `None` for an image that cannot be opened or has no EXIF block.
- `datetime.now()` is not modelled; each reading is a parameter.
- Text.LowerChar: maps only ASCII, Latin-1 and Cyrillic capitals (Ё and Ѐ–Џ included). Python's full Unicode table and its multi-character lowerings (such as `İ`) are not modelled.
- Dates.ParseDisplay: accepts only the zero-padded layout the app itself writes. `strptime` also accepts one-digit day, month, hour and minute fields and a run of whitespace for the space. So a hand-edited date such as `1.1.2024 9:00` counts as unparsable here, while Python sorts it.
- Dates.Pad: always writes the year with four digits. For years before 1000 the C library's `%Y` may not pad; clock readings never fall there.
- Dates.Valid: leap seconds are not modelled; Python's `datetime` has none either.
