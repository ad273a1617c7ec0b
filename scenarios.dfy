/** Two sample entries and what the gallery does with them. */
module Scenarios {
  import opened Wrappers
  import opened Text
  import opened Dates
  import opened Sorting
  import opened Entries
  import opened Query

  function SampleA(): Entry
  {
    Entry(Some("1"), None, Some("call"), Some("Work"), Some(FormatDisplay(DateTime(2024, 1, 1, 10, 0, 0))), None)
  }

  function SampleB(): Entry
  {
    Entry(Some("2"), None, Some("gym"), Some("Personal"), Some(FormatDisplay(DateTime(2024, 1, 2, 9, 0, 0))), None)
  }

  /** Sorting puts the later entry first. */
  lemma ScenarioSort()
    ensures Sortable([SampleA(), SampleB()]) && SortNewestFirst([SampleA(), SampleB()]) == [SampleB(), SampleA()]
  {
    var a, b := SampleA(), SampleB();
    ParseFormatDisplay(DateTime(2024, 1, 1, 10, 0, 0));
    ParseFormatDisplay(DateTime(2024, 1, 2, 9, 0, 0));
    assert DateKey(a) == Some(DateTime(2024, 1, 1, 10, 0, 0));
    assert DateKey(b) == Some(DateTime(2024, 1, 2, 9, 0, 0));
    assert Before(SortKey(a), SortKey(b));
    assert SortDescending([b], SortKey) == [b];
    assert [a, b][1..] == [b];
  }

  /** A needle whose first character is missing from the haystack does not occur in it. */
  lemma Absent(hay: string, needle: string)
    requires needle != [] && needle[0] !in hay
    ensures !Contains(hay, needle)
  {
    ContainsIffOccurs(hay, needle);
  }

  lemma SampleBMatchesGym()
    ensures Matches(AllCategories, "gym")(SampleB())
  {
    assert Lower("gym") == "gym";
    assert "gym"[..3] == "gym";
  }

  lemma SampleAMissesGym()
    ensures !Matches(AllCategories, "gym")(SampleA())
  {
    assert Lower("gym") == "gym";
    assert Lower("call") == "call";
    assert Lower("Work") == "work";
    Absent("work", "gym");
    Absent("call", "gym");
  }

  /** Searching "gym" under "Все" keeps only the entry whose note holds it. */
  lemma ScenarioSearch()
    ensures Selected([SampleB(), SampleA()], AllCategories, "gym") == [SampleB()]
  {
    SampleBMatchesGym();
    SampleAMissesGym();
    assert [SampleB(), SampleA()][1..] == [SampleA()];
  }

  /** The filter "Work" with an empty search keeps only the entry of that category. */
  lemma ScenarioCategory()
    ensures Selected([SampleB(), SampleA()], "Work", "") == [SampleA()]
  {
    assert Lower("call")[..0] == Lower("");
  }
}
