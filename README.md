# Candidate form extraction, modelled in Dafny

The application reads a scanned candidate form and turns the OCR text into
one candidate record. This project models the text logic that does the
turning. Image handling, OCR, the web layer and the database are not modelled.
The OCR text is taken as the input.

The model has five modules:

- `Wrappers`: `Option` and `Result`. The `Err` side of `Result` stands for the
  exception Python raises.
- `PyStr`: the Python string built-ins the code relies on:
  - `str.isspace` and `str.strip`;
  - `str.find`, including the way Python normalises a negative start;
  - slicing with clamped bounds, where a slice whose end lies before its
    start is empty;
  - ASCII case-insensitive comparison of literals.
- `Section`: `extract_section`. It finds the start marker, then finds the
  end marker *from the index where the start marker begins*, then returns
  the stripped slice between them. It returns the rest of the text when
  there is no end marker, and `""` when there is no start marker.
- `FieldMatch`: `parse_field`. It performs a `re.search` for the one pattern
  shape `rf"{field_name}[:\-]?\s*([^\n]+)"` under `re.IGNORECASE`.
  - The label is spliced raw into the regular expression. A `|` in it
    therefore splits the whole pattern into top-level alternatives. Every
    alternative but the last is plain literal text (`Bare`). Only the last
    one carries the separator, the whitespace run and the group
    (`Labelled`).
  - The matcher follows the backtracking engine's order:
    1. leftmost start first;
    2. then the alternatives from left to right;
    3. then the greedy `?`, `*` and `+`, each giving back one character at
       a time.
  - It is proved against a declarative description of "a match" and of "the
    match tried first" (`IsHit`, `FirstHit`).
  - A match of a bare alternative leaves group 1 unset. `.strip()` on it
    then raises, which is modelled as `Err(GroupNotMatched)`.
- `Extract`: the record assembly of `extract_data`.
  - It covers the five labelled fields, the three table sections with their
    marker pairs and the eight keys of the dictionary.
  - `ExtractData` is a method. It fills the dictionary by successive key
    assignments, as the source does, and returns `Err` when the phone
    lookup raises.
  - `ExtractDataIntended` assembles the same record with the grouped phone
    pattern that the Findings below call for.

## Model

| member | source | states |
|---|---|---|
| PyStr.StripSpec | app.py:53 | `Strip(s)` is what `str.strip()` returns: `s` minus a whitespace prefix and a whitespace suffix. Nothing but whitespace is removed, and the result neither begins nor ends with whitespace. |
| PyStr.StripUnique | app.py:53 | Any string obtained from `s` by cutting whitespace at both ends, and that has no whitespace left at either end, equals `Strip(s)`. |
| PyStr.StripTrimmed | app.py:53 | Stripping a string that has no whitespace at either end leaves it unchanged. |
| PyStr.StripIdempotent | app.py:53 | Stripping twice is the same as stripping once. |
| PyStr.StripOffset | app.py:60 | The stripped string is a contiguous piece `s[a..a+n]` of the original. |
| PyStr.StripChars | app.py:60 | Every character of the stripped string occurs in the original. |
| PyStr.FindFrom | app.py:57-58 | The scan from index `k` returns the first occurrence at or after `k`, or -1 exactly when there is none. |
| PyStr.Find | app.py:57-58 | `str.find(sub, start)` returns -1 or the first occurrence at or after the normalised start. A negative start counts from the end. |
| PyStr.FindFirst | app.py:57-58 | When `i` is the first occurrence at or after `from`, `find` returns `i`. |
| PyStr.FindNone | app.py:57-58 | When there is no occurrence at or after `from`, `find` returns -1. |
| PyStr.FindSkips | app.py:58 | Moving the search start over positions where `sub` does not occur does not change the result. |
| PyStr.OccursNowhere | app.py:57 | A substring containing a character that the text lacks occurs nowhere in the text. |
| PyStr.FindStart | app.py:58 | A non-negative start is kept. A negative start is mapped into `0..len`. |
| PyStr.SliceBound | app.py:60-62 | A slice bound is clamped into `0..len`; a bound already in range is kept. |
| PyStr.Slice | app.py:60-62 | `s[lo:hi]` is the substring between in-range bounds. It is empty when `hi <= lo`. |
| PyStr.SliceChars | app.py:60-62 | Every character of a slice occurs in the string. |
| PyStr.AsciiLower | app.py:52 | Upper-case ASCII letters are mapped to lower-case ones. Every other character is kept. |
| PyStr.LiteralNowhere | app.py:52 | A label containing a letter that the text lacks in either case matches nowhere under IGNORECASE. |
| Section.SectionShape | app.py:56-63 | Whatever the markers, the section has no whitespace at either end, and all of its characters come from the text. |
| Section.StartMarkerAbsent | app.py:57-63 | If the start marker does not occur, the result is `""`, whatever the end marker. |
| Section.BetweenMarkers | app.py:57-60 | Let the start marker first occur at `s`, and the end marker first occur from `s` at some `e >= s + len(start)`. Then the result is `text[s+len(start):e]` stripped. |
| Section.EndMarkerAbsent | app.py:57-62 | If the start marker occurs at `s` and the end marker does not occur at or after `s`, the result is the stripped remainder after the start marker. |
| Section.EndMarkerInsideStart | app.py:58-60 | If the end marker's first occurrence from `s` lies inside the start-marker occurrence, the slice runs backwards and the result is `""`. |
| Section.EmptyEndMarker | app.py:58-60 | With an empty end marker and a start marker that occurs, the result is always `""`. |
| Section.CutBetween | app.py:59-60 | The slice-and-strip from `s+n` to an end index at or after `s+n` is the stripped substring. |
| Section.CutToEnd | app.py:61-62 | With no end index, the result is the stripped remainder after `s+n`. |
| Section.CutBackwards | app.py:59-60 | With an end index before `s+n`, the result is `""`. |
| Section.MismatchBlocks | app.py:57-58 | One differing character rules out an occurrence at that index. |
| Section.NoEndInsideStart | app.py:58 | If the end marker clashes with every suffix of the start marker, it cannot begin inside a start-marker occurrence. |
| Section.NoOverlapSameSection | app.py:58 | Under the same clash condition, searching for the end marker from the start of the start marker gives the same section as searching from its end. |
| Section.NumberedMarkersClash | app.py:90-92 | Take a start marker `"N. …"` and an end marker `"M."`, where N and M share their first character, differ in their second, and that first character does not recur in the start marker. Then the end marker clashes with every suffix of the start marker. |
| FieldMatch.SpaceRunEnd | app.py:51 | The greedy `\s*` from `q` stops at the first non-whitespace character, which may be past any number of newlines. |
| FieldMatch.LineEnd | app.py:51 | The greedy `[^\n]+` runs to the next newline or to the end of the text. |
| FieldMatch.GiveBack | app.py:51 | Backtracking into `\s*` finds the last position, at or before the run's end, where a non-newline character can start the group. It finds none when every such position holds a newline. |
| FieldMatch.TailFrom | app.py:51 | `\s*([^\n]+)` from `q` yields exactly the match the engine tries first among all matches of that tail, or none when no match exists. |
| FieldMatch.MatchTail | app.py:51 | `[:\-]?\s*([^\n]+)` from `p`: the greedy optional separator is tried first, then the position without it. The result is the first match in the engine's order, or none when there is none. |
| FieldMatch.TailBounds | app.py:51 | Every match of the tail from `q` stays within the whitespace run and the line that follows it. |
| FieldMatch.SpaceRunCovers | app.py:51 | Any all-whitespace stretch from `q` ends within the greedy run. |
| FieldMatch.LineCovers | app.py:51 | Any newline-free stretch from `k` ends within the greedy line. |
| FieldMatch.MatchBranches | app.py:51-52 | At one start index, the alternatives from `b` on are tried left to right. The first that matches is earlier in the engine's order than every other match there. |
| FieldMatch.SearchFrom | app.py:52 | Scanning start indices from `i` returns a match tried before every other match at or after `i`, or none when every match starts before `i`. |
| FieldMatch.Search | app.py:52 | `re.search` returns the first match in the engine's order. It returns none exactly when the pattern matches nowhere. |
| FieldMatch.BarIndex | app.py:51 | The index of the first `\|` in the label, or its length when there is none. |
| FieldMatch.Splice | app.py:51 | Splicing the label gives the alternatives: bare ones, then one labelled one, none containing `\|`. Joining them with `\|` gives the label back. |
| FieldMatch.SplicedCons | app.py:51 | Putting a bare alternative in front keeps that shape and adds one `\|` to the joined text. |
| FieldMatch.SpliceJoin | app.py:51 | Splicing the joined text of any pattern of that shape gives the pattern back, so splicing and joining are inverse. |
| FieldMatch.SplicedRest | app.py:51 | Dropping the first of two or more alternatives keeps that shape. |
| FieldMatch.SpliceBarCons | app.py:51 | A label `a\|rest` splices into `Bare(a)` followed by the splice of `rest`. |
| FieldMatch.BarIndexAt | app.py:51 | In `a\|b` with no `\|` in `a`, the first bar is at `len(a)`. |
| FieldMatch.SpliceBar | app.py:51 | `a\|b` splices into exactly `[Bare(a), Labelled(b)]`. |
| FieldMatch.SplicePlain | app.py:51 | A label without `\|` splices into one labelled alternative. |
| FieldMatch.MatchPattern | app.py:52-53 | A value comes back without a newline and without whitespace at either end. An error is possible only when there is a bare alternative. |
| FieldMatch.MatchPatternSpec | app.py:52-53 | No match anywhere gives `"Not Found"`. A first match with no group gives the error. A first match with a group gives that group stripped. |
| FieldMatch.FirstHitUnique | app.py:52 | At most one match is tried before all others. |
| FieldMatch.ParseField | app.py:50-53 | For a label free of regex metacharacters, a value has no newline and no whitespace at either end. An error is possible only when the label contains `\|`. |
| FieldMatch.CaptureAt | app.py:53 | The stripped group of the first tail match has no newline and no whitespace at either end. |
| FieldMatch.CaptureInText | app.py:51-53 | The value is a piece `text[a:b]` of the text. |
| FieldMatch.SliceOfSlice | app.py:53 | A slice of a slice is the slice at the added offsets. |
| FieldMatch.NoLabelledHit | app.py:51-52 | If the label-tail sequence matches at no index, the one-alternative pattern has no match. |
| FieldMatch.ParseFieldNoMatch | app.py:51-53 | If no index has the label (ignoring case), the optional separator, whitespace and at least one non-newline character, the result is `"Not Found"`. |
| FieldMatch.ParseFieldLeftmost | app.py:51-53 | If such a sequence matches at `i` and at no earlier index, the result is the stripped capture of the tail the engine tries first from `i + len(label)`. |
| FieldMatch.LeftmostLabelHit | app.py:52 | The match at the leftmost such index, with the engine's first tail, is the match tried before all others. |
| FieldMatch.CaptureRunsToLineEnd | app.py:51 | The raw capture of the first match runs to the next newline or to the end of the text. |
| FieldMatch.LabelledHit | app.py:51-52 | A match of a labelled alternative has a group, and its label-tail sequence matches at that index. |
| FieldMatch.BareFirst | app.py:51-53 | For `a\|b…`: if the bare `a` occurs at `i`, and neither `a` nor the labelled `b` matches earlier, the search raises. |
| FieldMatch.LabelledFirst | app.py:51-53 | For `a\|b…`: if the labelled `b` matches leftmost at `i` and `a` occurs nowhere up to `i`, the result is `b`'s stripped capture. |
| FieldMatch.LabelledFirstHit | app.py:52 | In that situation the `b` match at `i` is the match tried first. |
| FieldMatch.NeitherMatches | app.py:51-53 | For `a\|b…`: if neither the bare `a` nor the labelled `b` matches anywhere, the result is `"Not Found"`. |
| FieldMatch.EitherFirst | app.py:51-53 | For the grouped `(?:a\|b)…`: a leftmost match of `a` with its tail gives `a`'s stripped capture. |
| FieldMatch.EitherFirstHit | app.py:52 | In that situation the `a` match is the match tried first. |
| FieldMatch.WidenBare | app.py:51-52 | A first match of the labelled `b` in `a\|b…` is also the first match of `(?:a\|b)…`. |
| FieldMatch.WidenBareNone | app.py:51-52 | If `a\|b…` matches nowhere, neither does `(?:a\|b)…`. |
| FieldMatch.WidenBareAgrees | app.py:51-53 | Wherever the raw `a\|b…` does not raise, the grouped `(?:a\|b)…` gives the same result. |
| FieldMatch.NameExample | app.py:50-53 | `"Name: Alice Smith"` gives `"Alice Smith"`. |
| FieldMatch.AliceSmithTail | app.py:51 | In that text the separator, one space and the rest of the line form the first tail. |
| FieldMatch.NextLineExample | app.py:50-53 | `"name:\nBob"` gives `"Bob"`: case is ignored, and `\s*` crosses the newline. |
| FieldMatch.BobTail | app.py:51 | In that text the tail takes the separator and the newline, and captures `"Bob"`. |
| FieldMatch.TrailingSpacesExample | app.py:50-53 | `"Name:  "` gives `""`: backtracking leaves one space to the group, and stripping removes it. |
| FieldMatch.BareColonExample | app.py:50-53 | `"Name:"` gives `":"`: the optional separator is given back so that the group can take the colon. |
| FieldMatch.LabelExample | app.py:50-53 | A label at index 0 with a tail match gives that tail's stripped capture. |
| Extract.LabelSplices | app.py:83-87 | Every field label is free of regex metacharacters and splices into its field's pattern. Only the phone label contains `\|`. |
| Extract.LabelWords | app.py:83-87 | The four labels other than the phone label are letters and spaces only. |
| Extract.WordsPlain | app.py:83-87 | A label of letters and spaces splices into one labelled alternative. |
| Extract.PhoneLabelSplices | app.py:86 | `"Phone\|Mobile"` splices into the bare `Phone` and the labelled `Mobile`. |
| Extract.PhoneLabelParts | app.py:86 | The phone label is `Phone`, a bar and `Mobile`. |
| Extract.FieldValue | app.py:83-87 | A field value has no newline and no whitespace at either end. Only the phone field can raise. |
| Extract.FieldValueIsParseField | app.py:83-87 | Each field's value is `parse_field` applied to its label, as written. |
| Extract.PhoneRaises | app.py:86 | If `Phone` (ignoring case) occurs at `i`, and neither it nor a labelled `Mobile` match begins earlier, the phone field raises. |
| Extract.PhoneFromMobile | app.py:86 | If a `Mobile` match is leftmost and `Phone` does not occur at or before it, the phone is `Mobile`'s stripped capture. |
| Extract.PhoneNotFound | app.py:86 | If neither `Phone` nor a labelled `Mobile` occurs, the phone is `"Not Found"`. |
| Extract.PhoneIntended | app.py:86 | The grouped phone pattern `(?:Phone\|Mobile)…` never raises. Its value has no newline and no whitespace at either end. |
| Extract.PhoneIntendedAgrees | app.py:86 | Wherever the phone field as written does not raise, the grouped pattern gives the same value. |
| Extract.PhoneExample | app.py:86 | On `"Phone: 555-1234"` the phone field as written raises, while the grouped pattern gives `"555-1234"`. |
| Extract.PhoneExampleTail | app.py:51 | In that text the tail after `Phone` captures `555-1234`. |
| Extract.TableShape | app.py:90-92 | Each table section has no whitespace at either end, and all of its characters come from the text. |
| Extract.TableSearchHarmless | app.py:90-92 | For the three real marker pairs, searching for the end marker from the start marker's first index gives the same section as searching from its end. |
| Extract.TrainingMarkers | app.py:90 | `"15. …"` and `"16."` meet the clash condition. |
| Extract.CertificationsMarkers | app.py:91 | `"16. …"` and `"17."` meet the clash condition. |
| Extract.FamilyMarkers | app.py:92 | `"17. …"` and `"18."` meet the clash condition. |
| Extract.BobScenario | app.py:83-92 | The text `"Name: Bob\nDOB: 1990-01-01\n"` gives name `"Bob"`. Date of birth, email, phone and address are `"Not Found"`, and all three table sections are `""`. |
| Extract.BobScenarioName | app.py:83 | In that text the name is `"Bob"`. |
| Extract.BobScenarioLetters | app.py:84-92 | That text has none of the letters needed by the other labels and markers. |
| Extract.BobScenarioTail | app.py:83 | In that text the tail after `Name` captures `Bob`. |
| Extract.AbsentLabel | app.py:83-87 | A plain-label field whose label has a letter missing from the text is `"Not Found"`. |
| Extract.AbsentPhone | app.py:86 | If the text lacks a letter of `Phone` and a letter of `Mobile`, the phone is `"Not Found"`. |
| Extract.AbsentTable | app.py:90-92 | A table whose start marker has a character missing from the text is `""`. |
| Extract.MarkerLetter | app.py:90-92 | Every start marker contains a `t`. |
| Extract.Assignments | app.py:83-92 | The eight successive assignments yield a dictionary with exactly the eight keys, each holding the value assigned to it. |
| Extract.KeysRecorded | app.py:83-92 | Every field key and every table key is one of the record's eight keys. |
| Extract.FieldsStored | app.py:83-87 | The five field entries hold the five field values. |
| Extract.OtherFieldsStored | app.py:83-87 | The four field entries other than the phone hold their field values. |
| Extract.TablesStored | app.py:90-92 | The three table entries hold the three sections. |
| Extract.ExtractData | app.py:83-94 | It raises exactly when the phone field raises. Otherwise the record has exactly the keys name, dob, email, phone, address, training, certifications and family. Each field key holds `parse_field` of its label, and each table key holds `extract_section` of its marker pair. |
| Extract.ExtractDataIntended | app.py:83-94 | The record built with the grouped phone pattern. It is always returned and has exactly the eight keys. The four other fields and the three sections hold the same values as in `ExtractData`. The phone holds the grouped pattern's value, which equals the as-written value wherever that one does not raise. |

## Left out

- Flask routing, uploads, `secure_filename`, the redirect and the templates (app.py:10-16, 107-140). They are web glue over foreign libraries.
- OpenCV preprocessing (app.py:43-47). It is image processing in a foreign library.
- PDF rasterisation, the temporary PNG file and Tesseract OCR, including the per-page `text +=` loop (app.py:71-80). These are external engines and file I/O. `ExtractData` takes the OCR text as its parameter.
- The SQLite schema, insert and select (app.py:21-40, 97-105). They wrap an external database.
- Python's general regular-expression engine. Only the one pattern shape `parse_field` builds is modelled.
- FieldMatch.ParseField: requires a label without regex metacharacters other than `|`. Every label the application passes meets this; other labels would change the pattern's meaning.
- PyStr.AsciiLower: IGNORECASE is modelled for ASCII letters only. Python's Unicode case folding (for example the Kelvin sign matching `k`) is not modelled.
- PyStr.IsSpace: `str.isspace` and the `\s` of `re` are modelled by one explicit set of code points. That set has the ASCII whitespace, the separators U+001C..U+001F, U+0085, U+00A0, U+1680, U+2000..U+200A, U+2028, U+2029, U+202F, U+205F and U+3000. No other Unicode notion is modelled.
- FieldMatch.ParseFieldNoMatch: states only the direction "no match gives `"Not Found"`". A match whose capture is literally `Not Found` returns the same string, so the converse is stated instead as `ParseFieldLeftmost`, which gives the leftmost capture.
- An example in the design description reads `DOB: 1990-01-01` as the date of birth. The code searches for the label `Date of Birth`, so that text gives `"Not Found"`. The model follows the code (`Extract.BobScenario`).
- The design description says the end marker is searched after the start marker. The code searches from the index where the start marker begins (app.py:58). The model follows the code. `Extract.TableSearchHarmless` shows that the two readings agree for the three marker pairs the application uses.
- The `AttributeError` from `None.strip()` is modelled as the `Err(GroupNotMatched)` value rather than as an exception.

## Findings

| source | as written | input that shows it | evidently intended | confidence | as-written member | corrected member |
|---|---|---|---|---|---|---|
| app.py:86 | `parse_field(text, "Phone\|Mobile")` splices the label raw. The regex becomes `Phone` alone or `Mobile[:\-]?\s*([^\n]+)`, so a leftmost `Phone` leaves group 1 unset and `.strip()` raises `AttributeError`. | `"Phone: 555-1234"` | A grouped alternation `(?:Phone\|Mobile)[:\-]?\s*([^\n]+)`, which returns `"555-1234"` | not executed | Extract.PhoneExample | Extract.PhoneIntended |
