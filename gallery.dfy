/** The gallery screen's list handling: reload and sort, then rebuild the shown cards through the filter. */
module Gallery {
  import opened Wrappers
  import opened Text
  import opened Seqs
  import opened Entries
  import opened Query

  class GalleryScreen {
    /** `entries`: the list last loaded, sorted in place. */
    var entries: seq<Entry>
    /** `current_category_filter`. */
    var currentCategoryFilter: string
    /** The text of the search field. */
    var searchText: string
    /** The entries behind the cards in the entries box, in the order they were added. */
    var shown: seq<Entry>

    constructor ()
      ensures entries == [] && currentCategoryFilter == AllCategories && searchText == "" && shown == []
    {
      entries := [];
      currentCategoryFilter := AllCategories;
      searchText := "";
      shown := [];
    }

    /**
     * `update_data`, given what `load_entries` returned. When some date is
     * missing or does not parse, the sort raises: the list stays as loaded
     * and the cards are not rebuilt.
     */
    method UpdateData(loaded: seq<Entry>) returns (ok: bool)
      modifies this
      ensures ok == Sortable(loaded)
      ensures ok ==> entries == SortNewestFirst(loaded) && shown == Selected(entries, currentCategoryFilter, searchText)
      ensures !ok ==> entries == loaded && shown == old(shown)
      ensures currentCategoryFilter == old(currentCategoryFilter) && searchText == old(searchText)
    {
      entries := loaded;
      if !Sortable(entries) {
        return false;
      }
      entries := SortNewestFirst(entries);
      FilterGallery(searchText);
      ok := true;
    }

    /** `filter_gallery`: clear the box, then add a card for every matching entry, in list order. */
    method FilterGallery(search: string)
      modifies this`shown
      ensures shown == Selected(entries, currentCategoryFilter, search)
    {
      shown := [];
      var i := 0;
      while i < |entries|
        invariant 0 <= i <= |entries|
        invariant shown == Selected(entries[..i], currentCategoryFilter, search)
      {
        var entry := entries[i];
        var catMatch := currentCategoryFilter == AllCategories || entry.category.GetOr("") == currentCategoryFilter;
        var textMatch := Contains(Lower(entry.note.GetOr("")), Lower(search))
                      || Contains(Lower(entry.category.GetOr("")), Lower(search));
        FilterStep(entries, i, Matches(currentCategoryFilter, search));
        if catMatch && textMatch {
          shown := shown + [entry];
        }
        i := i + 1;
      }
      assert entries[..i] == entries;
    }

    /** The search field's text changes: the new text is kept and the gallery re-filtered with it. */
    method SetSearchText(text: string)
      modifies this`searchText, this`shown
      ensures searchText == text
      ensures shown == Selected(entries, currentCategoryFilter, text)
    {
      searchText := text;
      FilterGallery(text);
    }

    /** `set_category_filter`: choose a category from the menu and re-filter with the current search text. */
    method SetCategoryFilter(category: string)
      modifies this`currentCategoryFilter, this`shown
      ensures currentCategoryFilter == category
      ensures shown == Selected(entries, category, searchText)
    {
      currentCategoryFilter := category;
      FilterGallery(searchText);
    }
  }
}
