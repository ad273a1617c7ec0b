/**
 * Diary records and the whole-document operations on them: loading the
 * document, building a new record, deleting by id and editing a note.
 */
module Entries {
  import opened Wrappers
  import opened Text
  import opened Dates
  import opened Seqs

  /**
   * One record of the JSON document. Every field is optional because the
   * document is a list of dictionaries and a record may lack any key.
   */
  datatype Entry = Entry(
    id: Option<string>,
    path: Option<string>,
    note: Option<string>,
    category: Option<string>,
    date: Option<string>,
    datetimeOriginal: Option<string>)

  /** The category stored when the user leaves the field blank. */
  const DefaultCategory: string := "Общее"

  /** The EXIF tag number of `DateTimeOriginal`. */
  const DateTimeOriginalTag: int := 36867

  /** The state of the document file `entries.json`. */
  datatype Document =
    | Missing                      // no file yet
    | Unreadable                   // opening or JSON decoding raises
    | Stored(entries: seq<Entry>)

  /** `load_entries`: the stored list, or the empty list when the file is missing or cannot be decoded. */
  function LoadEntries(doc: Document): (r: seq<Entry>)
    ensures doc.Stored? ==> r == doc.entries
    ensures !doc.Stored? ==> r == []
  {
    match doc
    case Stored(entries) => entries
    case _ => []
  }

  /**
   * `get_exif_date`: the EXIF `DateTimeOriginal` tag when the image has EXIF
   * data holding a non-empty one, otherwise the clock reading `now` in the
   * tag's own layout. `exif` is `None` when the image cannot be opened or
   * carries no EXIF block.
   */
  function ExifDate(exif: Option<map<int, string>>, now: DateTime): (r: string)
    requires Valid(now)
    ensures r != ""
    ensures exif.Some? && DateTimeOriginalTag in exif.value && exif.value[DateTimeOriginalTag] != ""
            ==> r == exif.value[DateTimeOriginalTag]
    ensures r == FormatExif(now) || (exif.Some? && DateTimeOriginalTag in exif.value && r == exif.value[DateTimeOriginalTag])
  {
    if exif.Some? && |exif.value| > 0 && DateTimeOriginalTag in exif.value && exif.value[DateTimeOriginalTag] != ""
    then exif.value[DateTimeOriginalTag]
    else FormatExif(now)
  }

  /** Without a non-empty `DateTimeOriginal` tag the date is the clock reading, in the tag's layout. */
  lemma ExifDateFallback(exif: Option<map<int, string>>, now: DateTime)
    requires Valid(now)
    requires exif.None? || DateTimeOriginalTag !in exif.value || exif.value[DateTimeOriginalTag] == ""
    ensures ExifDate(exif, now) == FormatExif(now)
  {
  }

  /** `category_input.text.strip() or "Общее"`. */
  function CategoryOrDefault(input: string): string
  {
    var c := Strip(input);
    if c == "" then DefaultCategory else c
  }

  /**
   * The record `save_current_entry` builds. `idClock` and `dateClock` are the
   * two separate readings of the clock taken for the `id` and the `date`.
   */
  function NewEntry(path: string, noteInput: string, categoryInput: string, exifDate: string,
                    idClock: DateTime, dateClock: DateTime): (e: Entry)
    requires Valid(idClock) && Valid(dateClock)
  {
    Entry(Some(FormatId(idClock)), Some(path), Some(Strip(noteInput)), Some(CategoryOrDefault(categoryInput)),
          Some(FormatDisplay(dateClock)), Some(exifDate))
  }

  /** The sort key: the `date` field parsed with `%d.%m.%Y %H:%M`; `None` where the sort would raise. */
  function DateKey(e: Entry): Option<DateTime>
  {
    match e.date
    case None => None
    case Some(s) => ParseDisplay(s)
  }

  /**
   * A new record has every key; its note is the input stripped of surrounding
   * whitespace; its category is the stripped input, never empty, falling back
   * to "Общее"; and its date parses back to the minute it was taken at.
   */
  lemma NewEntryProperties(path: string, noteInput: string, categoryInput: string, exifDate: string,
                           idClock: DateTime, dateClock: DateTime)
    requires Valid(idClock) && Valid(dateClock)
    ensures var e := NewEntry(path, noteInput, categoryInput, exifDate, idClock, dateClock);
      && e.id == Some(FormatId(idClock)) && e.path == Some(path) && e.datetimeOriginal == Some(exifDate)
      && e.note.Some? && Trimmed(e.note.value) && (exists i :: Surrounds(noteInput, e.note.value, i))
      && e.category.Some? && e.category.value != "" && Trimmed(e.category.value)
      && (e.category.value == DefaultCategory <==> Strip(categoryInput) == "" || Strip(categoryInput) == DefaultCategory)
      && (Strip(categoryInput) != "" ==> exists i :: Surrounds(categoryInput, e.category.value, i))
      && DateKey(e) == Some(ToMinute(dateClock))
  {
    StripCharacterised(noteInput);
    StripCharacterised(categoryInput);
    ParseFormatDisplay(dateClock);
    assert Trimmed(DefaultCategory);
  }

  /** The condition of the `delete_entry` comprehension: `e.get('id') != entry_id`. */
  function Survives(id: string): Entry -> bool
  {
    (e: Entry) => e.id != Some(id)
  }

  /** `delete_entry`: `[e for e in entries if e.get('id') != entry_id]`. */
  function DeleteById(s: seq<Entry>, id: string): seq<Entry>
  {
    Filter(s, Survives(id))
  }

  /**
   * Deleting drops every record with the id (duplicates included) and keeps
   * every other one, records lacking an id among them, with its multiplicity
   * and in the original relative order; the list never grows, and it keeps
   * its length exactly when no record carries the id.
   */
  lemma DeleteByIdCharacterised(s: seq<Entry>, id: string)
    ensures var r := DeleteById(s, id);
      && IsSubsequence(r, s)
      && (forall e :: multiset(r)[e] == if e.id == Some(id) then 0 else multiset(s)[e])
      && (forall i :: 0 <= i < |r| ==> r[i].id != Some(id))
      && |r| <= |s|
      && (|r| == |s| <==> forall i :: 0 <= i < |s| ==> s[i].id != Some(id))
  {
    var p := Survives(id);
    var r := DeleteById(s, id);
    FilterIsSubsequence(s, p);
    forall e: Entry ensures multiset(r)[e] == if e.id == Some(id) then 0 else multiset(s)[e] {
      FilterCount(s, p, e);
    }
    forall i | 0 <= i < |r| ensures r[i].id != Some(id) {
      FilterMembership(s, p, r[i]);
    }
    FilterLength(s, p);
  }

  /** Deleting the same id twice is deleting it once. */
  lemma DeleteByIdIdempotent(s: seq<Entry>, id: string)
    ensures DeleteById(DeleteById(s, id), id) == DeleteById(s, id)
  {
    FilterIdempotent(s, Survives(id));
  }

  /** The loop body of `save_edit` on one record: `if e['id'] == entry_id: e['note'] = new_text`. */
  function SetNote(e: Entry, id: string, text: string): Entry
  {
    if e.id == Some(id) then e.(note := Some(text)) else e
  }

  /** `save_edit` on the whole list: every record with the id gets the note. */
  function EditNote(s: seq<Entry>, id: string, text: string): (r: seq<Entry>)
    ensures |r| == |s|
  {
    seq(|s|, i requires 0 <= i < |s| => SetNote(s[i], id, text))
  }

  /** Every record has an `id` key (else `e['id']` raises `KeyError`). */
  predicate HasIds(s: seq<Entry>)
  {
    forall i :: 0 <= i < |s| ==> s[i].id.Some?
  }

  /**
   * Editing keeps the length and the order; every record with the id, not only
   * the first, now carries the new note and is otherwise unchanged; every
   * other record is unchanged.
   */
  lemma EditNoteEffect(s: seq<Entry>, id: string, text: string, i: nat)
    requires i < |s|
    ensures var r := EditNote(s, id, text);
      && |r| == |s|
      && (s[i].id == Some(id) ==> r[i].note == Some(text) && r[i].(note := s[i].note) == s[i])
      && (s[i].id != Some(id) ==> r[i] == s[i])
  {
  }

  /** With no record carrying the id, an edit changes nothing. */
  lemma EditNoteAbsent(s: seq<Entry>, id: string, text: string)
    requires forall i :: 0 <= i < |s| ==> s[i].id != Some(id)
    ensures EditNote(s, id, text) == s
  {
  }

  /** Only the last of two edits of the same id is visible. */
  lemma EditNoteLastWins(s: seq<Entry>, id: string, t1: string, t2: string)
    ensures EditNote(EditNote(s, id, t1), id, t2) == EditNote(s, id, t2)
  {
  }

  /** Editing leaves every id in place, so deleting after an edit is deleting. */
  lemma {:induction false} DeleteAfterEdit(s: seq<Entry>, id: string, text: string, other: string)
    ensures DeleteById(EditNote(s, other, text), id) == EditNote(DeleteById(s, id), other, text)
    decreases |s|
  {
    if s != [] {
      DeleteAfterEdit(s[1..], id, text, other);
      assert EditNote(s, other, text)[1..] == EditNote(s[1..], other, text);
      var d := DeleteById(s[1..], id);
      if s[0].id != Some(id) {
        assert [SetNote(s[0], other, text)] + EditNote(d, other, text) == EditNote([s[0]] + d, other, text);
      }
    }
  }

  /** Editing changes no sort key, so it never moves a record in the gallery. */
  lemma EditNoteKeepsKeys(s: seq<Entry>, id: string, text: string)
    ensures forall i :: 0 <= i < |s| ==> DateKey(EditNote(s, id, text)[i]) == DateKey(s[i])
  {
  }
}
