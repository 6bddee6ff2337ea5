/** The field-assembly part of `extract_data(file_path)`: once the OCR text is
    known, five labelled fields are read with parse_field and three table
    sections with extract_section, and the eight values are stored under fixed
    keys. The OCR text is a parameter here. */
module Extract {
  import opened Wrappers
  import opened PyStr
  import opened FieldMatch
  import opened Section

  /// The labels and marker pairs of the application form

  /** The five fields read with parse_field. */
  datatype Field = Name | DateOfBirth | Email | Phone | Address {
    /** The field name spliced into the pattern. */
    function Label(): string {
      match this
      case Name => "Name"
      case DateOfBirth => "Date of Birth"
      case Email => "Email"
      case Phone => "Phone|Mobile"
      case Address => "Address"
    }

    /** The alternatives `Label()` splices into. */
    function Pattern(): Pattern {
      match this
      case Phone => [Bare("Phone"), Labelled("Mobile")]
      case _ => [Labelled(Label())]
    }

    function Key(): string {
      match this
      case Name => "name"
      case DateOfBirth => "dob"
      case Email => "email"
      case Phone => "phone"
      case Address => "address"
    }
  }

  /** The three table sections read with extract_section. The longer start
      markers are written as concatenations of shorter pieces; the strings
      are the same. */
  datatype Table = Training | Certifications | Family {
    function StartMarker(): string {
      match this
      case Training => "15. Details of any important " + "training undergone:"
      case Certifications => "16. Please list the technical " + "or professional certification " + "you completed"
      case Family => "17. Details of Family Members:"
    }

    function EndMarker(): string {
      match this
      case Training => "16."
      case Certifications => "17."
      case Family => "18."
    }

    function Key(): string {
      match this
      case Training => "training"
      case Certifications => "certifications"
      case Family => "family"
    }
  }

  /** The keys of the record `extract_data` returns. */
  const RecordKeys: set<string> :=
    {"name", "dob", "email", "phone", "address", "training", "certifications", "family"}

  /** Every label is literal text, Pattern() is what it splices into, and
      only the phone label has a `|`. */
  lemma LabelSplices(f: Field, name: string)
    requires name == f.Label()
    ensures Spliceable(name) && Splice(name) == f.Pattern()
    ensures '|' in name <==> f == Phone
  {
    if f == Phone {
      PhoneLabelSplices(name);
    } else {
      LabelWords(f, name);
      WordsPlain(name);
    }
  }

  /** Letters and spaces only. */
  predicate Words(s: string) {
    forall j :: 0 <= j < |s| ==> ('a' <= s[j] <= 'z' || 'A' <= s[j] <= 'Z' || s[j] == ' ')
  }

  lemma LabelWords(f: Field, name: string)
    requires name == f.Label() && f != Phone
    ensures Words(name)
  {
  }

  lemma WordsPlain(name: string)
    requires Words(name)
    ensures Spliceable(name) && '|' !in name && Splice(name) == [Labelled(name)]
  {
    SplicePlain(name);
  }

  lemma PhoneLabelSplices(name: string)
    requires name == "Phone|Mobile"
    ensures Spliceable(name) && '|' in name && Splice(name) == [Bare("Phone"), Labelled("Mobile")]
  {
    var a, b := "Phone", "Mobile";
    assert Words(a) && Words(b);
    WordsPlain(a);
    WordsPlain(b);
    PhoneLabelParts(name);
    SpliceBar(a, b);
  }

  lemma PhoneLabelParts(name: string)
    requires name == "Phone|Mobile"
    ensures name == "Phone" + "|" + "Mobile"
  {
  }

  /** `parse_field(text, label)` for one of the five labels. */
  function FieldValue(text: string, f: Field): (r: Result<string, FieldError>)
    ensures r.Ok? ==> '\n' !in r.value && Trimmed(r.value)
    ensures r.Err? ==> f == Phone
  {
    MatchPattern(text, f.Pattern())
  }

  /** FieldValue is parse_field with the field's label. */
  lemma FieldValueIsParseField(text: string, f: Field)
    ensures Spliceable(f.Label()) && FieldValue(text, f) == ParseField(text, f.Label())
  {
    LabelSplices(f, f.Label());
  }

  /// The phone field

  /** A bare "Phone" (in any case) before any "Mobile" followed by a value
      makes parse_field raise, and extract_data with it. */
  lemma PhoneRaises(text: string, i: nat)
    requires LiteralAt(text, "Phone", i)
    requires forall j :: 0 <= j < i ==> !LiteralAt(text, "Phone", j) && !LabelMatchesAt(text, "Mobile", j)
    ensures FieldValue(text, Phone) == Err(GroupNotMatched)
  {
    BareFirst(text, "Phone", "Mobile", i);
  }

  /** Otherwise the value comes from the leftmost "Mobile" followed by a
      value, ... */
  lemma PhoneFromMobile(text: string, i: nat)
    requires LabelMatchesAt(text, "Mobile", i)
    requires forall j :: 0 <= j <= i ==> !LiteralAt(text, "Phone", j)
    requires forall j :: 0 <= j < i ==> !LabelMatchesAt(text, "Mobile", j)
    ensures i + 6 <= |text| && MatchTail(text, i + 6).Some?
    ensures FieldValue(text, Phone) == Ok(CaptureAt(text, i + 6))
  {
    LabelledFirst(text, "Phone", "Mobile", i);
  }

  /** ... and is "Not Found" when neither matches. */
  lemma PhoneNotFound(text: string)
    requires forall i :: !LiteralAt(text, "Phone", i) && !LabelMatchesAt(text, "Mobile", i)
    ensures FieldValue(text, Phone) == Ok(NotFound)
  {
    NeitherMatches(text, "Phone", "Mobile");
  }

  /** The phone field as `(?:Phone|Mobile)[:\-]?\s*([^\n]+)` reads it: either
      label, followed by the separator, whitespace and the value. It never
      raises. */
  function PhoneIntended(text: string): (r: Result<string, FieldError>)
    ensures r.Ok? && '\n' !in r.value && Trimmed(r.value)
  {
    MatchPattern(text, [Labelled("Phone"), Labelled("Mobile")])
  }

  /** Wherever the phone field as written gives a value, it is the intended one. */
  lemma PhoneIntendedAgrees(text: string)
    requires FieldValue(text, Phone).Ok?
    ensures PhoneIntended(text) == FieldValue(text, Phone)
  {
    WidenBareAgrees(text, "Phone", "Mobile");
  }

  /** "Phone: 555-1234" makes the field as written raise; read as intended it
      gives "555-1234". */
  lemma PhoneExample(text: string)
    requires text == "Phone: 555-1234"
    ensures FieldValue(text, Phone) == Err(GroupNotMatched)
    ensures PhoneIntended(text) == Ok("555-1234")
  {
    assert LiteralAt(text, "Phone", 0);
    PhoneRaises(text, 0);
    PhoneExampleTail(text);
    assert IsTail(text, 5, Tail(6, 7, 15));
    EitherFirst(text, "Phone", "Mobile", 0);
  }

  lemma PhoneExampleTail(text: string)
    requires text == "Phone: 555-1234"
    ensures MatchTail(text, 5) == Some(Tail(6, 7, 15))
    ensures Strip(text[7..15]) == "555-1234"
  {
    assert text[7..15] == "555-1234";
    StripTrimmed("555-1234");
    assert SpaceRunEnd(text, 6) == 7;
    assert GiveBack(text, 6, 7) == Some(7);
    LineCovers(text, 7, 15);
  }

  /** `extract_section(text, start, end)` for one of the three marker pairs. */
  function TableValue(text: string, t: Table): string {
    ExtractSection(text, t.StartMarker(), t.EndMarker())
  }

  /** A section value is stripped and made of characters of the text. */
  lemma TableShape(text: string, t: Table)
    ensures Trimmed(TableValue(text, t))
    ensures forall c :: c in TableValue(text, t) ==> c in text
  {
    SectionShape(text, t.StartMarker(), t.EndMarker());
  }

  /** For the three marker pairs of the form, looking for the end marker from
      where the start marker begins finds what looking from where it ends
      would: no end marker can begin inside its start marker. */
  lemma TableSearchHarmless(text: string, t: Table)
    ensures TableValue(text, t) == SectionAfterMarker(text, t.StartMarker(), t.EndMarker())
  {
    var sm, em := t.StartMarker(), t.EndMarker();
    match t {
      case Training => TrainingMarkers(sm, em);
      case Certifications => CertificationsMarkers(sm, em);
      case Family => FamilyMarkers(sm, em);
    }
    NumberedMarkersClash(sm, em);
    NoOverlapSameSection(text, sm, em);
  }

  lemma TrainingMarkers(sm: string, em: string)
    requires sm == Training.StartMarker() && em == Training.EndMarker()
    ensures 2 <= |sm| && 2 <= |em| && sm[0] == em[0] && sm[1] != em[1]
    ensures forall i :: 0 < i < |sm| ==> sm[i] != em[0]
  {
  }

  lemma CertificationsMarkers(sm: string, em: string)
    requires sm == Certifications.StartMarker() && em == Certifications.EndMarker()
    ensures 2 <= |sm| && 2 <= |em| && sm[0] == em[0] && sm[1] != em[1]
    ensures forall i :: 0 < i < |sm| ==> sm[i] != em[0]
  {
  }

  lemma FamilyMarkers(sm: string, em: string)
    requires sm == Family.StartMarker() && em == Family.EndMarker()
    ensures 2 <= |sm| && 2 <= |em| && sm[0] == em[0] && sm[1] != em[1]
    ensures forall i :: 0 < i < |sm| ==> sm[i] != em[0]
  {
  }

  /// A whole form

  /** "Name: Bob", then "DOB: 1990-01-01" on the next line: the name is
      found, the date of birth is not (its label is "Date of Birth", not
      "DOB"), nor is any other field or section. */
  lemma BobScenario(text: string)
    requires text == "Name: Bob\nDOB: 1990-01-01\n"
    ensures FieldValue(text, Name) == Ok("Bob")
    ensures FieldValue(text, DateOfBirth) == Ok(NotFound)
    ensures FieldValue(text, Email) == Ok(NotFound)
    ensures FieldValue(text, Phone) == Ok(NotFound)
    ensures FieldValue(text, Address) == Ok(NotFound)
    ensures forall t: Table :: TableValue(text, t) == ""
  {
    BobScenarioName(text);
    BobScenarioLetters(text);
    AbsentLabel(text, DateOfBirth, 'h');
    AbsentLabel(text, Email, 'l');
    AbsentLabel(text, Address, 'r');
    AbsentPhone(text, 'h', 'l');
    assert 't' !in text;
    forall t: Table ensures TableValue(text, t) == "" {
      MarkerLetter(t);
      AbsentTable(text, t, 't');
    }
  }

  lemma BobScenarioName(text: string)
    requires text == "Name: Bob\nDOB: 1990-01-01\n"
    ensures FieldValue(text, Name) == Ok("Bob")
  {
    BobScenarioTail(text);
    LabelSplices(Name, "Name");
    assert LiteralAt(text, "Name", 0);
    LabelExample(text, "Name", Tail(5, 6, 9), "Bob");
    FieldValueIsParseField(text, Name);
  }

  /** The letters of the scenario's text, in lower case. */
  lemma BobScenarioLetters(text: string)
    requires text == "Name: Bob\nDOB: 1990-01-01\n"
    ensures forall j :: 0 <= j < |text| ==>
      var l := AsciiLower(text[j]); l != 'h' && l != 'l' && l != 'r' && text[j] != 't'
  {
  }

  lemma BobScenarioTail(text: string)
    requires text == "Name: Bob\nDOB: 1990-01-01\n"
    ensures MatchTail(text, 4) == Some(Tail(5, 6, 9))
    ensures Strip(text[6..9]) == "Bob"
  {
    assert text[6..9] == "Bob";
    StripTrimmed("Bob");
    assert SpaceRunEnd(text, 5) == 6;
    assert GiveBack(text, 5, 6) == Some(6);
    LineCovers(text, 6, 9);
    assert text[9] == '\n';
    assert LineEnd(text, 6) == 9;
    assert TailFrom(text, 5) == Some(Tail(5, 6, 9));
    assert text[4] == ':';
  }

  /** A plain label with a letter the text lacks is "Not Found". */
  lemma AbsentLabel(text: string, f: Field, c: char)
    requires f != Phone && c in f.Label() && 'a' <= c <= 'z'
    requires forall j :: 0 <= j < |text| ==> AsciiLower(text[j]) != c
    ensures FieldValue(text, f) == Ok(NotFound)
  {
    LabelSplices(f, f.Label());
    LiteralNowhere(text, f.Label(), c);
    ParseFieldNoMatch(text, f.Label());
    FieldValueIsParseField(text, f);
  }

  /** Nor is the phone field, when the text lacks a letter of "Phone" and
      one of "Mobile". */
  lemma AbsentPhone(text: string, c: char, d: char)
    requires c in "Phone" && d in "Mobile" && 'a' <= c <= 'z' && 'a' <= d <= 'z'
    requires forall j :: 0 <= j < |text| ==> AsciiLower(text[j]) != c && AsciiLower(text[j]) != d
    ensures FieldValue(text, Phone) == Ok(NotFound)
  {
    LiteralNowhere(text, "Phone", c);
    LiteralNowhere(text, "Mobile", d);
    PhoneNotFound(text);
  }

  /** A section whose start marker has a character the text lacks is empty. */
  lemma AbsentTable(text: string, t: Table, c: char)
    requires c in t.StartMarker() && c !in text
    ensures TableValue(text, t) == ""
  {
    OccursNowhere(text, t.StartMarker(), c);
    StartMarkerAbsent(text, t.StartMarker(), t.EndMarker());
  }

  /** Every start marker has a `t` in it. */
  lemma MarkerLetter(t: Table)
    ensures 't' in t.StartMarker()
  {
    match t {
      case Training => assert t.StartMarker()[6] == 't';
      case Certifications => assert t.StartMarker()[14] == 't';
      case Family => assert t.StartMarker()[6] == 't';
    }
  }

  /** The eight successive assignments, on any values: every key is there
      and holds the value assigned to it. */
  lemma Assignments(name: string, dob: string, email: string, phone: string, address: string,
                    training: string, certifications: string, family: string)
    ensures var data := map[]["name" := name]["dob" := dob]["email" := email]["phone" := phone]
                         ["address" := address]["training" := training]
                         ["certifications" := certifications]["family" := family];
      data.Keys == RecordKeys
      && data["name"] == name && data["dob"] == dob && data["email"] == email
      && data["phone"] == phone && data["address"] == address && data["training"] == training
      && data["certifications"] == certifications && data["family"] == family
  {
  }

  /** Every field and section has its key in the record. */
  lemma KeysRecorded()
    ensures forall f: Field :: f.Key() in RecordKeys
    ensures forall t: Table :: t.Key() in RecordKeys
  {
    forall f: Field ensures f.Key() in RecordKeys {
      match f
      case Name =>
      case DateOfBirth =>
      case Email =>
      case Phone =>
      case Address =>
    }
    forall t: Table ensures t.Key() in RecordKeys {
      match t
      case Training =>
      case Certifications =>
      case Family =>
    }
  }

  /** The five field values, stored under their keys. */
  lemma FieldsStored(text: string, data: map<string, string>)
    requires data.Keys == RecordKeys
    requires FieldValue(text, Name) == Ok(data["name"])
    requires FieldValue(text, DateOfBirth) == Ok(data["dob"])
    requires FieldValue(text, Email) == Ok(data["email"])
    requires FieldValue(text, Phone) == Ok(data["phone"])
    requires FieldValue(text, Address) == Ok(data["address"])
    ensures forall f: Field :: FieldValue(text, f) == Ok(data[f.Key()])
  {
    OtherFieldsStored(text, data);
  }

  /** The four fields other than the phone, stored under their keys. */
  lemma OtherFieldsStored(text: string, data: map<string, string>)
    requires data.Keys == RecordKeys
    requires FieldValue(text, Name) == Ok(data["name"])
    requires FieldValue(text, DateOfBirth) == Ok(data["dob"])
    requires FieldValue(text, Email) == Ok(data["email"])
    requires FieldValue(text, Address) == Ok(data["address"])
    ensures forall f: Field :: f != Phone ==> FieldValue(text, f) == Ok(data[f.Key()])
  {
    KeysRecorded();
    forall f: Field | f != Phone ensures FieldValue(text, f) == Ok(data[f.Key()]) {
      match f
      case Name =>
      case DateOfBirth =>
      case Email =>
      case Address =>
    }
  }

  /** The three sections, stored under their keys. */
  lemma TablesStored(text: string, data: map<string, string>)
    requires data.Keys == RecordKeys
    requires data["training"] == TableValue(text, Training)
    requires data["certifications"] == TableValue(text, Certifications)
    requires data["family"] == TableValue(text, Family)
    ensures forall t: Table :: data[t.Key()] == TableValue(text, t)
  {
    KeysRecorded();
    forall t: Table ensures data[t.Key()] == TableValue(text, t) {
      match t
      case Training =>
      case Certifications =>
      case Family =>
    }
  }

  /** The record, in the order `extract_data` fills it. Only the call for the
      phone field can raise, and then no record is returned. */
  method ExtractData(text: string) returns (r: Result<map<string, string>, FieldError>)
    ensures r.Err? <==> FieldValue(text, Phone).Err?
    ensures r.Ok? ==> r.value.Keys == RecordKeys
    ensures r.Ok? ==> forall f: Field :: FieldValue(text, f) == Ok(r.value[f.Key()])
    ensures r.Ok? ==> forall t: Table :: r.value[t.Key()] == TableValue(text, t)
  {
    // Only the phone label can make parse_field raise (FieldValue's
    // contract), so only that call passes an error on.
    var data: map<string, string> := map[];
    var name := FieldValue(text, Name).value;
    data := data["name" := name];
    var dob := FieldValue(text, DateOfBirth).value;
    data := data["dob" := dob];
    var email := FieldValue(text, Email).value;
    data := data["email" := email];
    var phone :- FieldValue(text, Phone);
    data := data["phone" := phone];
    var address := FieldValue(text, Address).value;
    data := data["address" := address];
    var training, certifications, family :=
      TableValue(text, Training), TableValue(text, Certifications), TableValue(text, Family);
    data := data["training" := training];
    data := data["certifications" := certifications];
    data := data["family" := family];
    Assignments(name, dob, email, phone, address, training, certifications, family);
    FieldsStored(text, data);
    TablesStored(text, data);
    return Ok(data);
  }

  /** The record with the phone read by the grouped pattern: it is always
      returned, it agrees with ExtractData's record wherever that one is
      returned, and it differs from it only where the phone field raises. */
  method ExtractDataIntended(text: string) returns (data: map<string, string>)
    ensures data.Keys == RecordKeys
    ensures forall f: Field :: f != Phone ==> FieldValue(text, f) == Ok(data[f.Key()])
    ensures PhoneIntended(text) == Ok(data["phone"])
    ensures FieldValue(text, Phone).Ok? ==> FieldValue(text, Phone) == Ok(data["phone"])
    ensures forall t: Table :: data[t.Key()] == TableValue(text, t)
  {
    data := map[];
    var name := FieldValue(text, Name).value;
    data := data["name" := name];
    var dob := FieldValue(text, DateOfBirth).value;
    data := data["dob" := dob];
    var email := FieldValue(text, Email).value;
    data := data["email" := email];
    var phone := PhoneIntended(text).value;
    data := data["phone" := phone];
    var address := FieldValue(text, Address).value;
    data := data["address" := address];
    var training, certifications, family :=
      TableValue(text, Training), TableValue(text, Certifications), TableValue(text, Family);
    data := data["training" := training];
    data := data["certifications" := certifications];
    data := data["family" := family];
    Assignments(name, dob, email, phone, address, training, certifications, family);
    OtherFieldsStored(text, data);
    TablesStored(text, data);
    if FieldValue(text, Phone).Ok? {
      PhoneIntendedAgrees(text);
    }
  }
}
