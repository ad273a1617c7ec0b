/**
 * The Python string operations the diary applies to user input and to stored
 * fields: `str.strip()`, `str.lower()` and the substring test `needle in hay`.
 */
module Text {

  /** The characters for which Python's `str.isspace()` holds, which `str.strip()` removes. */
  predicate IsSpace(c: char)
  {
    c in {' ', '\t', '\n', '\U{B}', '\U{C}', '\r', '\U{1C}', '\U{1D}', '\U{1E}', '\U{1F}',
          '\U{85}', '\U{A0}', '\U{1680}', '\U{2028}', '\U{2029}', '\U{202F}', '\U{205F}', '\U{3000}'}
    || '\U{2000}' <= c <= '\U{200A}'
  }

  ghost predicate AllSpace(s: string)
  {
    forall i :: 0 <= i < |s| ==> IsSpace(s[i])
  }

  /** `s` neither starts nor ends with whitespace. */
  ghost predicate Trimmed(s: string)
  {
    s == [] || (!IsSpace(s[0]) && !IsSpace(s[|s| - 1]))
  }

  /** `s` is `r` surrounded by whitespace, with `i` whitespace characters before it. */
  ghost predicate Surrounds(s: string, r: string, i: nat)
  {
    i + |r| <= |s| && s[i..i + |r|] == r && AllSpace(s[..i]) && AllSpace(s[i + |r|..])
  }

  function TrimStart(s: string): string
    decreases |s|
  {
    if |s| > 0 && IsSpace(s[0]) then TrimStart(s[1..]) else s
  }

  function TrimEnd(s: string): string
    decreases |s|
  {
    if |s| > 0 && IsSpace(s[|s| - 1]) then TrimEnd(s[..|s| - 1]) else s
  }

  /** Python's `str.strip()` with no argument. */
  function Strip(s: string): string
  {
    TrimEnd(TrimStart(s))
  }

  lemma {:induction false} TrimStartShape(s: string) returns (i: nat)
    ensures i <= |s| && TrimStart(s) == s[i..] && AllSpace(s[..i])
    ensures TrimStart(s) == [] || !IsSpace(TrimStart(s)[0])
    decreases |s|
  {
    if |s| > 0 && IsSpace(s[0]) {
      var j := TrimStartShape(s[1..]);
      i := j + 1;
      assert s[1..][j..] == s[i..];
      assert forall k :: 0 < k < i ==> s[..i][k] == s[1..][..j][k - 1];
    } else {
      i := 0;
    }
  }

  lemma {:induction false} TrimEndShape(s: string) returns (j: nat)
    ensures j <= |s| && TrimEnd(s) == s[..j] && AllSpace(s[j..])
    ensures TrimEnd(s) == [] || !IsSpace(TrimEnd(s)[|TrimEnd(s)| - 1])
    decreases |s|
  {
    if |s| > 0 && IsSpace(s[|s| - 1]) {
      var t := s[..|s| - 1];
      j := TrimEndShape(t);
      assert t[..j] == s[..j];
      assert s[j..] == t[j..] + [s[|s| - 1]];
    } else {
      j := |s|;
      assert s[..j] == s;
    }
  }

  /**
   * `Strip(s)` is `s` with its surrounding whitespace removed: it neither
   * starts nor ends with whitespace, and only whitespace was cut off.
   */
  lemma StripCharacterised(s: string)
    ensures Trimmed(Strip(s))
    ensures exists i :: Surrounds(s, Strip(s), i)
  {
    var i := TrimStartShape(s);
    var t := s[i..];
    var j := TrimEndShape(t);
    var r := Strip(s);
    assert r == t[..j] == s[i..i + j];
    assert s[i + j..] == t[j..];
    assert Surrounds(s, r, i);
  }

  /** What `Surrounds(s, r, i)` says about one position `m` of `s`. */
  lemma SurroundsAt(s: string, r: string, i: nat, m: nat)
    requires Surrounds(s, r, i) && m < |s|
    ensures i <= m < i + |r| ==> s[m] == r[m - i]
    ensures m < i || i + |r| <= m ==> IsSpace(s[m])
  {
    if i <= m < i + |r| {
      assert s[i..i + |r|][m - i] == s[m];
    } else if m < i {
      assert s[..i][m] == s[m];
    } else {
      assert s[i + |r|..][m - i - |r|] == s[m];
    }
  }

  /** The whitespace cut off on each side is forced: no other trimmed infix surrounded by whitespace exists. */
  lemma StripUnique(s: string, r: string, i: nat)
    requires Trimmed(r) && Surrounds(s, r, i)
    ensures r == Strip(s)
  {
    StripCharacterised(s);
    var q := Strip(s);
    var k: nat :| Surrounds(s, q, k);
    if r == [] && q != [] {
      SurroundsAt(s, q, k, k);
      SurroundsAt(s, r, i, k);
    } else if q == [] && r != [] {
      SurroundsAt(s, r, i, i);
      SurroundsAt(s, q, k, i);
    } else if r != [] {
      // Both start at the first non-space character of s ...
      if k < i {
        SurroundsAt(s, q, k, k);
        SurroundsAt(s, r, i, k);
      } else if i < k {
        SurroundsAt(s, r, i, i);
        SurroundsAt(s, q, k, i);
      }
      assert k == i;
      // ... and end at its last one.
      if |q| < |r| {
        SurroundsAt(s, r, i, i + |r| - 1);
        SurroundsAt(s, q, k, i + |r| - 1);
      }
    }
  }

  /** Stripping an already stripped string changes nothing. */
  lemma StripIdempotent(s: string)
    ensures Strip(Strip(s)) == Strip(s)
  {
    var r := Strip(s);
    StripCharacterised(s);
    assert Surrounds(r, r, 0) by {
      assert r[0..|r|] == r;
      assert r[..0] == [] && r[|r|..] == [];
    }
    StripUnique(r, r, 0);
  }

  /** The case mapping of one character: ASCII, Latin-1 and Cyrillic capitals. */
  function LowerChar(c: char): char
  {
    if 'A' <= c <= 'Z' then (c as int + 32) as char
    else if '\U{C0}' <= c <= '\U{DE}' && c != '\U{D7}' then (c as int + 32) as char
    else if '\U{400}' <= c <= '\U{40F}' then (c as int + 80) as char
    else if '\U{410}' <= c <= '\U{42F}' then (c as int + 32) as char
    else c
  }

  /** Python's `str.lower()`, character by character. */
  function Lower(s: string): (r: string)
    ensures |r| == |s|
    ensures forall i :: 0 <= i < |s| ==> r[i] == LowerChar(s[i])
  {
    seq(|s|, i requires 0 <= i < |s| => LowerChar(s[i]))
  }

  /** Lower-casing once is enough: every character `LowerChar` produces is already lower-case. */
  lemma LowerCharIdempotent(c: char)
    ensures LowerChar(LowerChar(c)) == LowerChar(c)
  {
  }

  /** `s.lower().lower() == s.lower()`. */
  lemma LowerIdempotent(s: string)
    ensures Lower(Lower(s)) == Lower(s)
  {
    forall i | 0 <= i < |s|
      ensures Lower(Lower(s))[i] == Lower(s)[i]
    {
      LowerCharIdempotent(s[i]);
    }
  }

  /** Lower-casing commutes with slicing: a slice of the lower-cased text is the lower-cased slice. */
  lemma LowerSlice(s: string, i: nat, j: nat)
    requires i <= j <= |s|
    ensures Lower(s[i..j]) == Lower(s)[i..j]
  {
    forall k | 0 <= k < j - i
      ensures Lower(s[i..j])[k] == Lower(s)[i..j][k]
    {
      assert s[i..j][k] == s[i + k];
    }
  }

  /** `needle` occurs in `hay` starting at index `i`. */
  ghost predicate OccursAt(hay: string, needle: string, i: nat)
  {
    i + |needle| <= |hay| && hay[i..i + |needle|] == needle
  }

  /** Python's `needle in hay` on strings. */
  predicate Contains(hay: string, needle: string)
    decreases |hay|
  {
    (|needle| <= |hay| && hay[..|needle|] == needle) || (|hay| > 0 && Contains(hay[1..], needle))
  }

  /** The recursive test finds exactly the occurrences: `Contains` holds iff `needle` occurs at some index. */
  lemma {:induction false} ContainsIffOccurs(hay: string, needle: string)
    ensures Contains(hay, needle) <==> exists i :: OccursAt(hay, needle, i)
    decreases |hay|
  {
    if |needle| <= |hay| && hay[..|needle|] == needle {
      assert OccursAt(hay, needle, 0);
    } else if |hay| > 0 {
      ContainsIffOccurs(hay[1..], needle);
      if Contains(hay[1..], needle) {
        var i: nat :| OccursAt(hay[1..], needle, i);
        assert hay[1..][i..i + |needle|] == hay[i + 1..i + 1 + |needle|];
        assert OccursAt(hay, needle, i + 1);
      } else if exists i :: OccursAt(hay, needle, i) {
        var i: nat :| OccursAt(hay, needle, i);
        assert i != 0;
        assert hay[1..][i - 1..i - 1 + |needle|] == hay[i..i + |needle|];
        assert OccursAt(hay[1..], needle, i - 1);
        assert false;
      }
    }
  }

  /** Some slice of `hay` at `i`, of the length of `needle`, lower-cases to the lower-cased `needle`. */
  ghost predicate OccursIgnoringCaseAt(hay: string, needle: string, i: nat)
  {
    i + |needle| <= |hay| && Lower(hay[i..i + |needle|]) == Lower(needle)
  }

  /** One occurrence, seen both ways: in the lower-cased text, and as a slice of the original text. */
  lemma OccursIgnoringCase(hay: string, needle: string, i: nat)
    ensures OccursAt(Lower(hay), Lower(needle), i) <==> OccursIgnoringCaseAt(hay, needle, i)
  {
    if i + |needle| <= |hay| {
      LowerSlice(hay, i, i + |needle|);
    }
  }

  /**
   * The case-insensitive search of the gallery: the lower-cased `needle` is
   * in the lower-cased `hay` exactly when some slice of `hay` lower-cases to
   * the lower-cased needle.
   */
  lemma {:induction false} LowerContains(hay: string, needle: string)
    ensures Contains(Lower(hay), Lower(needle)) <==> exists i :: OccursIgnoringCaseAt(hay, needle, i)
  {
    ContainsIffOccurs(Lower(hay), Lower(needle));
    if Contains(Lower(hay), Lower(needle)) {
      var i: nat :| OccursAt(Lower(hay), Lower(needle), i);
      OccursIgnoringCase(hay, needle, i);
    }
    if exists i :: OccursIgnoringCaseAt(hay, needle, i) {
      var i: nat :| OccursIgnoringCaseAt(hay, needle, i);
      OccursIgnoringCase(hay, needle, i);
    }
  }
}
