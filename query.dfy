/**
 * What the gallery shows: the entries ordered newest first by their `date`
 * (`list.sort(key=..., reverse=True)`, a stable sort) and the category and
 * text filter applied to them.
 */
module Query {
  import opened Wrappers
  import opened Text
  import opened Dates
  import opened Seqs
  import opened Entries
  import opened Sorting

  /** The filter choice that shows every category. */
  const AllCategories: string := "Все"

  /** `cat_match`: the filter is "Все" or equals the entry's category (missing reads as ""). */
  predicate CategoryMatch(e: Entry, filter: string)
  {
    filter == AllCategories || e.category.GetOr("") == filter
  }

  /** `text_match`: the lower-cased search text occurs in the lower-cased note or category. */
  predicate TextMatch(e: Entry, search: string)
  {
    Contains(Lower(e.note.GetOr("")), Lower(search)) || Contains(Lower(e.category.GetOr("")), Lower(search))
  }

  function Matches(filter: string, search: string): Entry -> bool
  {
    (e: Entry) => CategoryMatch(e, filter) && TextMatch(e, search)
  }

  /** The entries `filter_gallery` adds to the gallery, in the order it adds them. */
  function Selected(s: seq<Entry>, filter: string, search: string): seq<Entry>
  {
    Filter(s, Matches(filter, search))
  }

  /**
   * The gallery shows an order-preserving subsequence of the entries, each
   * matching entry as often as it occurs; an entry is shown iff the filter is
   * "Все" or its category is exactly the filter, and the lower-cased search
   * text occurs in its lower-cased note or lower-cased category.
   */
  lemma SelectedCharacterised(s: seq<Entry>, filter: string, search: string)
    ensures var r := Selected(s, filter, search);
      && IsSubsequence(r, s)
      && (forall e :: multiset(r)[e] == if Matches(filter, search)(e) then multiset(s)[e] else 0)
      && (forall e :: e in r <==>
            && e in s
            && (filter == AllCategories || e.category.GetOr("") == filter)
            && ((exists i :: OccursAt(Lower(e.note.GetOr("")), Lower(search), i))
                || (exists i :: OccursAt(Lower(e.category.GetOr("")), Lower(search), i))))
  {
    var p := Matches(filter, search);
    var r := Selected(s, filter, search);
    FilterIsSubsequence(s, p);
    forall e: Entry ensures multiset(r)[e] == if p(e) then multiset(s)[e] else 0 {
      FilterCount(s, p, e);
    }
    forall e: Entry
      ensures e in r <==>
            && e in s
            && (filter == AllCategories || e.category.GetOr("") == filter)
            && ((exists i :: OccursAt(Lower(e.note.GetOr("")), Lower(search), i))
                || (exists i :: OccursAt(Lower(e.category.GetOr("")), Lower(search), i)))
    {
      FilterMembership(s, p, e);
      ContainsIffOccurs(Lower(e.note.GetOr("")), Lower(search));
      ContainsIffOccurs(Lower(e.category.GetOr("")), Lower(search));
    }
  }

  /** With the filter "Все" and an empty search text every entry is shown, in order. */
  lemma SelectedUnfiltered(s: seq<Entry>)
    ensures Selected(s, AllCategories, "") == s
  {
    forall i | 0 <= i < |s| ensures Matches(AllCategories, "")(s[i]) {
      assert Lower(s[i].note.GetOr(""))[..0] == Lower("");
    }
    FilterKeepsAll(s, Matches(AllCategories, ""));
  }

  /** Every entry's `date` parses: `strptime` raises on none of them. */
  predicate Sortable(s: seq<Entry>)
  {
    forall i :: 0 <= i < |s| ==> DateKey(s[i]).Some?
  }

  /** The parsed date; the placeholder for an unparsable one is never consulted, since sorting requires `Sortable`. */
  function SortKey(e: Entry): DateTime
  {
    DateKey(e).GetOr(DateTime(0, 0, 0, 0, 0, 0))
  }

  /** `entries.sort(key=lambda x: strptime(x['date'], "%d.%m.%Y %H:%M"), reverse=True)`. */
  function SortNewestFirst(s: seq<Entry>): (r: seq<Entry>)
    requires Sortable(s)
    ensures multiset(r) == multiset(s)
    ensures Sortable(r)
  {
    var r := SortDescending(s, SortKey);
    assert forall i :: 0 <= i < |r| ==> r[i] in multiset(s);
    r
  }

  /** Dates never increase along the sequence. */
  ghost predicate NewestFirst(s: seq<Entry>)
    requires Sortable(s)
  {
    forall i, j :: 0 <= i < j < |s| ==> !Before(DateKey(s[i]).value, DateKey(s[j]).value)
  }

  function HasDate(k: DateTime): Entry -> bool
  {
    (e: Entry) => DateKey(e) == Some(k)
  }

  /** The entries of `s` whose date is `k`, in order. */
  function WithDate(s: seq<Entry>, k: DateTime): seq<Entry>
  {
    Filter(s, HasDate(k))
  }

  /** On entries whose date parses, the date filter and the sort key's filter are the same thing. */
  lemma WithDateBySortKey(s: seq<Entry>, k: DateTime)
    requires Sortable(s)
    ensures WithDate(s, k) == Filter(s, HasKey(SortKey, k))
  {
    forall i | 0 <= i < |s| ensures HasDate(k)(s[i]) == HasKey(SortKey, k)(s[i]) {
      assert DateKey(s[i]) == Some(SortKey(s[i]));
    }
    FilterAgree(s, HasDate(k), HasKey(SortKey, k));
  }

  /** After the sort the dates never increase: newest first. */
  lemma SortNewestFirstOrdered(s: seq<Entry>)
    requires Sortable(s)
    ensures NewestFirst(SortNewestFirst(s))
  {
    SortDescendingOrdered(s, SortKey);
  }

  /**
   * The sort is stable: entries sharing a date keep their relative order
   * (`reverse=True` does not reverse them), so entries saved within the same
   * minute stay in insertion order, oldest first.
   */
  lemma SortNewestFirstStable(s: seq<Entry>, k: DateTime)
    requires Sortable(s)
    ensures WithDate(SortNewestFirst(s), k) == WithDate(s, k)
  {
    SortDescendingStable(s, SortKey, k);
    WithDateBySortKey(s, k);
    WithDateBySortKey(SortNewestFirst(s), k);
  }

  /** The gallery order is the only newest-first arrangement that keeps each date's entries in list order. */
  lemma SortNewestFirstUnique(s: seq<Entry>, r: seq<Entry>)
    requires Sortable(s) && Sortable(r) && NewestFirst(r)
    requires forall k :: WithDate(r, k) == WithDate(s, k)
    ensures r == SortNewestFirst(s)
  {
    forall k ensures Filter(r, HasKey(SortKey, k)) == Filter(s, HasKey(SortKey, k)) {
      WithDateBySortKey(s, k);
      WithDateBySortKey(r, k);
    }
    SortDescendingUnique(s, r, SortKey);
  }

  /** Editing notes commutes with selecting one date's entries. */
  lemma {:induction false} WithDateEditNote(s: seq<Entry>, id: string, text: string, k: DateTime)
    ensures WithDate(EditNote(s, id, text), k) == EditNote(WithDate(s, k), id, text)
    decreases |s|
  {
    if s != [] {
      WithDateEditNote(s[1..], id, text, k);
      var e := EditNote(s, id, text);
      assert e == [SetNote(s[0], id, text)] + EditNote(s[1..], id, text);
      FilterAppend([SetNote(s[0], id, text)], EditNote(s[1..], id, text), HasDate(k));
      var w := WithDate(s[1..], k);
      if HasDate(k)(s[0]) {
        assert EditNote([s[0]] + w, id, text) == [SetNote(s[0], id, text)] + EditNote(w, id, text);
      }
    }
  }

  /** Editing a note never moves an entry in the gallery: sorting then editing is editing then sorting. */
  lemma SortNewestFirstEditNote(s: seq<Entry>, id: string, text: string)
    requires Sortable(s)
    ensures Sortable(EditNote(s, id, text))
    ensures SortNewestFirst(EditNote(s, id, text)) == EditNote(SortNewestFirst(s), id, text)
  {
    var t := SortNewestFirst(s);
    var r := EditNote(t, id, text);
    EditNoteKeepsKeys(s, id, text);
    EditNoteKeepsKeys(t, id, text);
    SortNewestFirstOrdered(s);
    forall k ensures WithDate(r, k) == WithDate(EditNote(s, id, text), k) {
      WithDateEditNote(t, id, text, k);
      SortNewestFirstStable(s, k);
      WithDateEditNote(s, id, text, k);
    }
    SortNewestFirstUnique(EditNote(s, id, text), r);
  }
}
