/**
 * The application object's store operations: save the captured photo as a
 * new entry, delete an entry with its photo, edit an entry's note. Each one
 * reads the whole document, changes the list in memory and writes it back.
 */
module Diary {
  import opened Wrappers
  import opened Dates
  import opened Entries
  import opened Query
  import opened Gallery

  class PhotoDiaryApp {
    /** The document file `entries.json`. */
    var document: Document
    /** The image files that exist on disk. */
    var photos: set<string>
    /** The camera screen's `last_photo_path`: the photo waiting to be saved, "" when none. */
    var lastPhotoPath: string
    /** The camera screen's note field. */
    var noteInput: string
    /** The camera screen's category field. */
    var categoryInput: string

    constructor (doc: Document, files: set<string>)
      ensures document == doc && photos == files
      ensures lastPhotoPath == "" && noteInput == "" && categoryInput == ""
    {
      document := doc;
      photos := files;
      lastPhotoPath := "";
      noteInput := "";
      categoryInput := "";
    }

    /**
     * `save_current_entry`. Without a photo path, or when its file is gone,
     * nothing is built or written. Otherwise the new record is appended to the
     * loaded list and the list is written back; the note field and the photo
     * path are cleared, the category field is kept. `exif` is what the image's
     * metadata holds, the clocks are the readings taken for the EXIF fallback,
     * the id and the date.
     */
    method SaveCurrentEntry(exif: Option<map<int, string>>, exifClock: DateTime, idClock: DateTime, dateClock: DateTime)
      returns (saved: bool)
      requires Valid(exifClock) && Valid(idClock) && Valid(dateClock)
      modifies this
      ensures saved == (old(lastPhotoPath) != "" && old(lastPhotoPath) in old(photos))
      ensures saved ==> document == Stored(LoadEntries(old(document)) + [
                NewEntry(old(lastPhotoPath), old(noteInput), old(categoryInput), ExifDate(exif, exifClock), idClock, dateClock)])
      ensures saved ==> noteInput == "" && lastPhotoPath == ""
      ensures !saved ==> document == old(document) && noteInput == old(noteInput) && lastPhotoPath == old(lastPhotoPath)
      ensures photos == old(photos) && categoryInput == old(categoryInput)
    {
      var path := lastPhotoPath;
      if path == "" || path !in photos {
        return false;
      }
      var exifDate := ExifDate(exif, exifClock);
      var newEntry := NewEntry(path, noteInput, categoryInput, exifDate, idClock, dateClock);
      var entries := LoadEntries(document);
      entries := entries + [newEntry];
      document := Stored(entries);
      noteInput := "";
      lastPhotoPath := "";
      saved := true;
    }

    /**
     * `delete_entry`: remove the photo file if it exists (a failed removal,
     * `removed == false`, is ignored), write back the list without the records
     * carrying `entryId`, and refresh the gallery from the written list.
     */
    method DeleteEntry(entryId: string, photoPath: string, removed: bool, gallery: GalleryScreen)
      returns (refreshed: bool)
      modifies this, gallery
      ensures photos == if photoPath in old(photos) && removed then old(photos) - {photoPath} else old(photos)
      ensures document == Stored(DeleteById(LoadEntries(old(document)), entryId))
      ensures lastPhotoPath == old(lastPhotoPath) && noteInput == old(noteInput) && categoryInput == old(categoryInput)
      ensures refreshed == Sortable(LoadEntries(document))
      ensures refreshed ==> (gallery.entries == SortNewestFirst(LoadEntries(document))
                             && gallery.shown == Selected(gallery.entries, gallery.currentCategoryFilter, gallery.searchText))
      ensures !refreshed ==> gallery.entries == LoadEntries(document) && gallery.shown == old(gallery.shown)
      ensures gallery.currentCategoryFilter == old(gallery.currentCategoryFilter)
      ensures gallery.searchText == old(gallery.searchText)
    {
      if photoPath in photos && removed {
        photos := photos - {photoPath};
      }
      var entries := DeleteById(LoadEntries(document), entryId);
      document := Stored(entries);
      refreshed := gallery.UpdateData(entries);
    }

    /**
     * `save_edit`: set the note of every loaded record whose id is `entryId`,
     * write the list back and refresh the gallery. A record without an `id`
     * makes `e['id']` raise first: nothing is written and the gallery is not
     * refreshed.
     */
    method SaveEdit(entryId: string, newText: string, gallery: GalleryScreen)
      returns (saved: bool, refreshed: bool)
      modifies this, gallery
      ensures saved == HasIds(LoadEntries(old(document)))
      ensures saved ==> document == Stored(EditNote(LoadEntries(old(document)), entryId, newText))
      ensures !saved ==> document == old(document) && !refreshed && unchanged(gallery)
      ensures photos == old(photos) && lastPhotoPath == old(lastPhotoPath)
      ensures noteInput == old(noteInput) && categoryInput == old(categoryInput)
      ensures refreshed == (saved && Sortable(LoadEntries(document)))
      ensures refreshed ==> (gallery.entries == SortNewestFirst(LoadEntries(document))
                             && gallery.shown == Selected(gallery.entries, gallery.currentCategoryFilter, gallery.searchText))
      ensures saved && !refreshed ==> gallery.entries == LoadEntries(document) && gallery.shown == old(gallery.shown)
      ensures gallery.currentCategoryFilter == old(gallery.currentCategoryFilter)
      ensures gallery.searchText == old(gallery.searchText)
    {
      var loaded := LoadEntries(document);
      var entries := loaded;
      var i := 0;
      while i < |entries|
        invariant 0 <= i <= |entries| == |loaded|
        invariant forall j :: 0 <= j < i ==> loaded[j].id.Some? && entries[j] == SetNote(loaded[j], entryId, newText)
        invariant forall j :: i <= j < |loaded| ==> entries[j] == loaded[j]
        modifies {}
      {
        if entries[i].id.None? {
          return false, false;
        }
        if entries[i].id.value == entryId {
          entries := entries[i := entries[i].(note := Some(newText))];
        }
        i := i + 1;
      }
      assert entries == EditNote(loaded, entryId, newText);
      document := Stored(entries);
      saved := true;
      refreshed := gallery.UpdateData(entries);
    }
  }
}
