/** `extract_section(text, start_marker, end_marker)`: the text between the
    first occurrence of the start marker and the first occurrence of the end
    marker found from there, stripped. Markers are compared exactly, without
    regard to case folding.

    The end marker is looked for from the index where the start marker
    begins, not from where it ends; a slice whose end comes before its start
    is empty. */
module Section {
  import opened PyStr

  function ExtractSection(text: string, startMarker: string, endMarker: string): string {
    var startIdx := Find(text, startMarker, 0);
    Cut(text, startIdx, |startMarker|, Find(text, endMarker, startIdx))
  }

  /** The three outcomes of extract_section, on the indices the two searches
      returned: -1 for the start marker means empty; -1 for the end marker
      means up to the end of the text. */
  function Cut(text: string, startIdx: int, markerLen: nat, endIdx: int): string {
    if startIdx != -1 && endIdx != -1 then
      Strip(Slice(text, startIdx + markerLen, endIdx))
    else if startIdx != -1 then
      Strip(Slice(text, startIdx + markerLen, |text|))
    else
      ""
  }

  /** Whatever the markers, the section has no whitespace at either end and
      every character of it comes from the text. */
  lemma SectionShape(text: string, startMarker: string, endMarker: string)
    ensures Trimmed(ExtractSection(text, startMarker, endMarker))
    ensures forall c :: c in ExtractSection(text, startMarker, endMarker) ==> c in text
  {
    var s := Find(text, startMarker, 0);
    var e := Find(text, endMarker, s);
    if s != -1 {
      var n := |startMarker|;
      var body := Slice(text, s + n, if e != -1 then e else |text|);
      assert ExtractSection(text, startMarker, endMarker) == Strip(body);
      StripSpec(body);
      StripChars(body);
      SliceChars(text, s + n, if e != -1 then e else |text|);
    }
  }

  /** Without the start marker the section is empty, whatever the end marker. */
  lemma StartMarkerAbsent(text: string, startMarker: string, endMarker: string)
    requires AbsentFrom(text, startMarker, 0)
    ensures ExtractSection(text, startMarker, endMarker) == ""
  {
    FindNone(text, startMarker, 0);
  }

  /** The start marker first at `s`, the end marker first found from `s` at
      `e`, and `e` not inside the start marker: the stripped text between. */
  lemma BetweenMarkers(text: string, startMarker: string, endMarker: string, s: nat, e: nat)
    requires FirstOccurrence(text, startMarker, 0, s)
    requires FirstOccurrence(text, endMarker, s, e)
    requires s + |startMarker| <= e
    ensures ExtractSection(text, startMarker, endMarker) == Strip(text[s + |startMarker|..e])
  {
    FindFirst(text, startMarker, 0, s);
    FindFirst(text, endMarker, s, e);
    var n := |startMarker|;
    CutBetween(text, s, n, e);
  }

  /** The end marker nowhere from `s` on: everything after the start marker,
      stripped. */
  lemma EndMarkerAbsent(text: string, startMarker: string, endMarker: string, s: nat)
    requires FirstOccurrence(text, startMarker, 0, s)
    requires AbsentFrom(text, endMarker, s)
    ensures ExtractSection(text, startMarker, endMarker) == Strip(text[s + |startMarker|..])
  {
    FindFirst(text, startMarker, 0, s);
    FindNone(text, endMarker, s);
    var n := |startMarker|;
    CutToEnd(text, s, n);
  }

  lemma CutBetween(text: string, s: nat, n: nat, e: nat)
    requires s + n <= e <= |text|
    ensures Cut(text, s, n, e) == Strip(text[s + n..e])
  {
  }

  lemma CutToEnd(text: string, s: nat, n: nat)
    requires s + n <= |text|
    ensures Cut(text, s, n, -1) == Strip(text[s + n..])
  {
    var rest := Slice(text, s + n, |text|);
    assert rest == text[s + n..|text|];
    assert text[s + n..|text|] == text[s + n..];
    assert Cut(text, s, n, -1) == Strip(rest);
  }

  /** The end marker first found from `s` begins inside the start marker's
      occurrence (it overlaps it, or it is empty): the slice is empty. */
  lemma EndMarkerInsideStart(text: string, startMarker: string, endMarker: string, s: nat, e: nat)
    requires FirstOccurrence(text, startMarker, 0, s)
    requires FirstOccurrence(text, endMarker, s, e)
    requires e < s + |startMarker|
    ensures ExtractSection(text, startMarker, endMarker) == ""
  {
    FindFirst(text, startMarker, 0, s);
    FindFirst(text, endMarker, s, e);
    var n := |startMarker|;
    CutBackwards(text, s, n, e);
  }

  lemma CutBackwards(text: string, s: nat, n: nat, e: nat)
    requires e <= s + n <= |text|
    ensures Cut(text, s, n, e) == ""
  {
    assert Slice(text, s + n, e) == [];
  }

  /** An empty end marker is found where the start marker begins, so the
      section is empty whenever the start marker occurs. */
  lemma EmptyEndMarker(text: string, startMarker: string, i: nat)
    requires OccursAt(text, startMarker, i)
    ensures ExtractSection(text, startMarker, "") == ""
  {
    var s := Find(text, startMarker, 0);
    assert s != -1;
    assert OccursAt(text, "", s);
    FindFirst(text, "", s, s);
    var n := |startMarker|;
    CutBackwards(text, s, n, s);
  }

  /** One differing character rules out an occurrence. */
  lemma MismatchBlocks(text: string, sub: string, i: nat, j: nat)
    requires j < |sub| && i + j < |text| && text[i + j] != sub[j]
    ensures !OccursAt(text, sub, i)
  {
    assert i + |sub| <= |text| ==> text[i..i + |sub|][j] == text[i + j];
  }

  /// Where the end marker is looked for

  /** The reading in which the end marker is looked for only after the start
      marker: the same as ExtractSection except for the start of the second
      search. */
  function SectionAfterMarker(text: string, startMarker: string, endMarker: string): string {
    var startIdx := Find(text, startMarker, 0);
    Cut(text, startIdx, |startMarker|, Find(text, endMarker, startIdx + |startMarker|))
  }

  /** `endMarker` cannot begin `i` characters into an occurrence of
      `startMarker`: where the two overlap, some character differs. */
  predicate Clashes(startMarker: string, endMarker: string, i: nat) {
    exists j :: 0 <= j < |endMarker| && i + j < |startMarker| && startMarker[i + j] != endMarker[j]
  }

  /** When the end marker cannot begin inside an occurrence of the start
      marker, searching from the start marker's first index finds what
      searching from its end would. */
  lemma NoOverlapSameSection(text: string, startMarker: string, endMarker: string)
    requires forall i :: 0 <= i < |startMarker| ==> Clashes(startMarker, endMarker, i)
    ensures ExtractSection(text, startMarker, endMarker) == SectionAfterMarker(text, startMarker, endMarker)
  {
    var s := Find(text, startMarker, 0);
    if s != -1 {
      NoEndInsideStart(text, startMarker, endMarker, s);
      FindSkips(text, endMarker, s, s + |startMarker|);
    }
  }

  lemma NoEndInsideStart(text: string, startMarker: string, endMarker: string, s: nat)
    requires OccursAt(text, startMarker, s)
    requires forall i :: 0 <= i < |startMarker| ==> Clashes(startMarker, endMarker, i)
    ensures forall i :: s <= i < s + |startMarker| ==> !OccursAt(text, endMarker, i)
  {
    var n := |startMarker|;
    forall i | s <= i < s + n ensures !OccursAt(text, endMarker, i) {
      assert Clashes(startMarker, endMarker, i - s);
      var j :| 0 <= j < |endMarker| && i - s + j < n && startMarker[i - s + j] != endMarker[j];
      assert text[s..s + n][i - s + j] == text[i + j];
      MismatchBlocks(text, endMarker, i, j);
    }
  }
  /** Markers such as "15. ..." and "16.": the same first character, a
      different second one, and the first character nowhere else in the start
      marker. */
  lemma NumberedMarkersClash(startMarker: string, endMarker: string)
    requires 2 <= |startMarker| && 2 <= |endMarker|
    requires startMarker[0] == endMarker[0] && startMarker[1] != endMarker[1]
    requires forall i :: 0 < i < |startMarker| ==> startMarker[i] != endMarker[0]
    ensures forall i :: 0 <= i < |startMarker| ==> Clashes(startMarker, endMarker, i)
  {
    forall i | 0 <= i < |startMarker| ensures Clashes(startMarker, endMarker, i) {
      var j := if i == 0 then 1 else 0;
      assert startMarker[i + j] != endMarker[j];
    }
  }
}
