/**
 * The exam-format builder (builder-client.tsx): parsing numeric inputs, naming new
 * sections and saved formats, the section totals, editing a section, saving and
 * deleting formats, and the readiness checks shown before a format is finalised.
 * React state is passed in and returned as values; the clock reading and the random
 * part of a new format's id are parameters.
 */
module Builder {
  import opened Text
  import opened Questions

  datatype ExamDetails = ExamDetails(course: string, assessment: string, durationMinutes: int, totalMarks: int, notes: string)

  datatype Section = Section(id: string, name: string, items: int, difficulty: string, marks: int)

  datatype Status = Draft | Saved

  datatype SavedFormat = SavedFormat(id: string, name: string, savedAt: string, status: Status, details: ExamDetails, sections: seq<Section>)

  // ---------------------------------------------------------------------------
  // Numeric inputs: `toNumber`
  // ---------------------------------------------------------------------------

  /** The longest prefix of `s` made of decimal digits. */
  function LeadingDigits(s: string): (d: string)
    ensures |d| <= |s| && d == s[..|d|] && AllDigits(d)
    ensures |d| < |s| ==> !IsDigit(s[|d|])
  {
    if s != [] && IsDigit(s[0]) then [s[0]] + LeadingDigits(s[1..]) else []
  }

  /** `s` with one leading `+` or `-` removed. */
  function Unsigned(s: string): (r: string)
    ensures |r| <= |s|
  {
    if s != [] && (s[0] == '-' || s[0] == '+') then s[1..] else s
  }

  /** `Number.parseInt(value, 10)` on ASCII text, `None` standing for `NaN`: leading
      whitespace is skipped, one sign is allowed, and the digits that follow are read
      up to the first character that is not a digit. */
  function ParseInt(value: string): (r: Option<int>)
  {
    ParseSigned(TrimStart(value))
  }

  /** An optional sign and the digits after it. */
  function ParseSigned(s: string): (r: Option<int>)
  {
    var digits := LeadingDigits(Unsigned(s));
    var magnitude: int := if digits == [] then 0 else DigitsValue(digits);
    if digits == [] then None
    else if s[0] == '-' then Some(-magnitude)
    else Some(magnitude)
  }

  /** `toNumber` (builder-client.tsx:81-84): the parsed integer, or 0 when the text
      does not start with a number. */
  function ToNumber(value: string): (n: int)
    ensures LeadingDigits(Unsigned(TrimStart(value))) == [] ==> n == 0
  {
    match ParseInt(value)
    case None => 0
    case Some(v) => v
  }

  /** The digits of a number stop where the digits stop. */
  lemma {:induction false} LeadingDigitsOf(d: string, rest: string)
    requires AllDigits(d) && (rest == [] || !IsDigit(rest[0]))
    ensures LeadingDigits(d + rest) == d
    decreases |d|
  {
    if d != [] {
      assert (d + rest)[1..] == d[1..] + rest;
      LeadingDigitsOf(d[1..], rest);
    } else {
      assert d + rest == rest;
    }
  }

  /** Text with no digit in it parses to 0. */
  lemma NoDigitsIsZero(value: string)
    requires forall i :: 0 <= i < |value| ==> !IsDigit(value[i])
    ensures ToNumber(value) == 0
  {
    var s := TrimStart(value);
    var u := Unsigned(s);
    if u != [] {
      assert u[0] in value by {
        assert u == s[|s| - |u|..];
        assert s == value[|value| - |s|..];
      }
    }
  }

  /** Reading back a rendered integer gives the integer, whatever non-digit text
      follows it: a field holding `${n}`, or `${n}` followed by a unit, is `n`. */
  lemma ToNumberOfIntToString(i: int, rest: string)
    requires rest == [] || !IsDigit(rest[0])
    ensures ToNumber(IntToString(i) + rest) == i
  {
    var n: nat := if i < 0 then -i else i;
    RenderedDigits(i, rest);
    LeadingDigitsOf(NatToString(n), rest);
    DigitsValueOfNatToString(n);
  }

  /** A rendered integer has nothing to skip, and its digits follow the sign. */
  lemma RenderedDigits(i: int, rest: string)
    ensures var s := TrimStart(IntToString(i) + rest);
            s == IntToString(i) + rest && (s[0] == '-' <==> i < 0)
    ensures Unsigned(IntToString(i) + rest) == NatToString(if i < 0 then -i else i) + rest
  {
    var value := IntToString(i);
    assert (value + rest)[0] == value[0];
    if i < 0 {
      assert (value + rest)[1..] == NatToString(-i) + rest;
    }
  }

  /** Leading whitespace does not change the number. */
  lemma ToNumberSkipsSpaces(spaces: string, value: string)
    requires AllSpaces(spaces)
    ensures ToNumber(spaces + value) == ToNumber(value)
  {
    TrimStartSkips(spaces, value);
  }

  // ---------------------------------------------------------------------------
  // Names: `formatSectionName` and `buildFormatName`
  // ---------------------------------------------------------------------------

  const SectionPrefix := "Section "
  const SectionSuffix := ": New section"

  /** The part of a new section's name between its prefix and suffix. */
  function SectionLabel(name: string): string
    requires |name| >= |SectionPrefix| + |SectionSuffix|
  {
    name[|SectionPrefix|..|name| - |SectionSuffix|]
  }

  /** `formatSectionName` (builder-client.tsx:86-91): up to 26 the section is labelled
      by the letter with code `64 + index` (`A` for 1, `Z` for 26), and beyond that by
      its number.  The indices the builder passes start from 1. */
  function FormatSectionName(index: nat): (name: string)
    ensures |name| > |SectionPrefix| + |SectionSuffix|
    ensures name[..|SectionPrefix|] == SectionPrefix
    ensures name[|name| - |SectionSuffix|..] == SectionSuffix
  {
    if index <= 26 then SectionPrefix + [(64 + index) as char] + SectionSuffix
    else SectionPrefix + NatToString(index) + SectionSuffix
  }

  /** The label of a new section reads back as its index: one capital letter
      standing for the index up to 26, its decimal digits beyond. */
  lemma SectionLabelReadsBack(index: nat)
    ensures var tag := SectionLabel(FormatSectionName(index));
            (1 <= index <= 26 ==> |tag| == 1 && IsUpper(tag[0]) && tag[0] as int - 'A' as int + 1 == index)
            && (index > 26 ==> |tag| >= 2 && AllDigits(tag) && DigitsValue(tag) == index)
  {
    var name := FormatSectionName(index);
    if index <= 26 {
      assert SectionLabel(name) == [(64 + index) as char];
    } else {
      assert SectionLabel(name) == NatToString(index);
      DigitsValueOfNatToString(index);
    }
  }

  /** Different indices give different section names. */
  lemma FormatSectionNameInjective(a: nat, b: nat)
    requires FormatSectionName(a) == FormatSectionName(b)
    ensures a == b
  {
    var name := FormatSectionName(a);
    SectionLabelReadsBack(a);
    SectionLabelReadsBack(b);
    if a <= 26 && b <= 26 {
      assert SectionLabel(name) == [(64 + a) as char] == [(64 + b) as char];
    } else if a > 26 && b > 26 {
      assert SectionLabel(name) == NatToString(a) == NatToString(b);
      NatToStringInjective(a, b);
    }
  }

  const Untitled := "Untitled format"

  /** `buildFormatName` (builder-client.tsx:93-98): the trimmed course and assessment
      joined by " - ", the one of them that is not blank, or "Untitled format".  The
      name is never empty and has no surrounding whitespace. */
  function BuildFormatName(details: ExamDetails): (name: string)
    ensures name != []
    ensures Trim(name) == name
  {
    var course := Trim(details.course);
    var assessment := Trim(details.assessment);
    if course != [] && assessment != [] then
      JoinedUntrimmed(course, assessment);
      course + " - " + assessment
    else if course != [] then course
    else if assessment != [] then assessment
    else
      TrimUntrimmed(Untitled);
      Untitled
  }

  /** Joining two trimmed texts with " - " leaves nothing to trim. */
  lemma JoinedUntrimmed(a: string, b: string)
    requires a != [] && !IsSpace(a[0]) && !IsSpace(a[|a| - 1])
    requires b != [] && !IsSpace(b[0]) && !IsSpace(b[|b| - 1])
    ensures Trim(a + " - " + b) == a + " - " + b
  {
    var s := a + " - " + b;
    assert s[0] == a[0] && s[|s| - 1] == b[|b| - 1];
    TrimUntrimmed(s);
  }

  /** Which fields the name is made of, by whether each field is blank. */
  lemma BuildFormatNameCases(details: ExamDetails)
    ensures var name := BuildFormatName(details);
            (!AllSpaces(details.course) && !AllSpaces(details.assessment) ==>
                  name == Trim(details.course) + " - " + Trim(details.assessment))
            && (!AllSpaces(details.course) && AllSpaces(details.assessment) ==> name == Trim(details.course))
            && (AllSpaces(details.course) && !AllSpaces(details.assessment) ==> name == Trim(details.assessment))
            && (AllSpaces(details.course) && AllSpaces(details.assessment) ==> name == Untitled)
  {
  }

  // ---------------------------------------------------------------------------
  // Totals
  // ---------------------------------------------------------------------------

  /** The sum of the sections' item counts. */
  function SumItems(sections: seq<Section>): int
  {
    if sections == [] then 0 else SumItems(sections[..|sections| - 1]) + sections[|sections| - 1].items
  }

  /** The sum of the sections' marks. */
  function SumMarks(sections: seq<Section>): int
  {
    if sections == [] then 0 else SumMarks(sections[..|sections| - 1]) + sections[|sections| - 1].marks
  }

  /** The items of the sections at difficulty `d`. */
  function ItemsOf(sections: seq<Section>, d: string): int
  {
    if sections == [] then 0
    else ItemsOf(sections[..|sections| - 1], d) + (if sections[|sections| - 1].difficulty == d then sections[|sections| - 1].items else 0)
  }

  /** The difficulties of the sections, each once, in order of first appearance: the
      order in which `Object.entries` lists the keys the fold adds. */
  function Difficulties(sections: seq<Section>): (ds: seq<string>)
    ensures Distinct(ds)
  {
    if sections == [] then []
    else
      var d := sections[|sections| - 1].difficulty;
      var ds := Difficulties(sections[..|sections| - 1]);
      if d in ds then ds else DistinctSnoc(ds, d); ds + [d]
  }

  /** The difficulties listed are exactly those of the sections. */
  lemma {:induction false} DifficultiesMeaning(sections: seq<Section>)
    ensures forall d :: d in Difficulties(sections) <==> exists k :: 0 <= k < |sections| && sections[k].difficulty == d
  {
    if sections != [] {
      var init := sections[..|sections| - 1];
      DifficultiesMeaning(init);
      assert forall k :: 0 <= k < |init| ==> init[k] == sections[k];
    }
  }

  /** `${difficulty}: ${count}` for each difficulty, in order. */
  function Labels(sections: seq<Section>, ds: seq<string>): (labels: seq<string>)
    ensures |labels| == |ds|
  {
    seq(|ds|, k requires 0 <= k < |ds| => ds[k] + ": " + IntToString(ItemsOf(sections, ds[k])))
  }

  const Bullet := " \U{2022} "

  datatype Totals = Totals(questions: int, marks: int, difficultySummary: string)

  /** The fold's accumulator after the sections `prefix`: the item and mark sums, the
      difficulties seen in the order they were added, and the items at each. */
  ghost predicate Folded(prefix: seq<Section>, questions: int, marks: int, difficulty: map<string, int>, keys: seq<string>) {
    && questions == SumItems(prefix) && marks == SumMarks(prefix)
    && keys == Difficulties(prefix)
    && (forall d :: d in difficulty <==> d in keys)
    && (forall d :: d in difficulty ==> difficulty[d] == ItemsOf(prefix, d))
  }

  /** One step of the fold adds the section to the accumulator. */
  lemma FoldStep(prefix: seq<Section>, x: Section, questions: int, marks: int, difficulty: map<string, int>, keys: seq<string>)
    requires Folded(prefix, questions, marks, difficulty, keys)
    ensures var count := if x.difficulty in difficulty then difficulty[x.difficulty] else 0;
            Folded(prefix + [x], questions + x.items, marks + x.marks, difficulty[x.difficulty := count + x.items],
                   if x.difficulty in difficulty then keys else keys + [x.difficulty])
  {
    var s := prefix + [x];
    assert s[..|s| - 1] == prefix && s[|s| - 1] == x;
    if x.difficulty !in difficulty {
      ItemsOfAbsent(prefix, x.difficulty);
    }
  }

  /** The `totals` memo (builder-client.tsx:113-138): one pass over the sections adds
      up items and marks and counts the items per difficulty; the summary lists each
      difficulty with its count, in order of first appearance. */
  method ComputeTotals(sections: seq<Section>) returns (t: Totals)
    ensures t.questions == SumItems(sections) && t.marks == SumMarks(sections)
    ensures t.difficultySummary == Join(Labels(sections, Difficulties(sections)), Bullet)
  {
    var questions, marks := 0, 0;
    var difficulty: map<string, int> := map[];
    var keys: seq<string> := [];
    for i := 0 to |sections|
      invariant Folded(sections[..i], questions, marks, difficulty, keys)
    {
      var section := sections[i];
      FoldStep(sections[..i], section, questions, marks, difficulty, keys);
      assert sections[..i + 1] == sections[..i] + [section];
      questions := questions + section.items;
      marks := marks + section.marks;
      if section.difficulty !in difficulty {
        keys := keys + [section.difficulty];
      }
      var count := if section.difficulty in difficulty then difficulty[section.difficulty] else 0;
      difficulty := difficulty[section.difficulty := count + section.items];
    }
    assert sections[..|sections|] == sections;
    var labels := seq(|keys|, k requires 0 <= k < |keys| => keys[k] + ": " + IntToString(difficulty[keys[k]]));
    assert labels == Labels(sections, keys);
    t := Totals(questions, marks, Join(labels, Bullet));
  }

  /** The sum, over the difficulties `ds`, of the items at each. */
  function SumOver(sections: seq<Section>, ds: seq<string>): int
  {
    if ds == [] then 0 else SumOver(sections, ds[..|ds| - 1]) + ItemsOf(sections, ds[|ds| - 1])
  }

  /** One more section adds its items to the sum over any list of distinct
      difficulties that contains its difficulty, and nothing otherwise. */
  lemma {:induction false} SumOverSnoc(sections: seq<Section>, x: Section, ds: seq<string>)
    requires Distinct(ds)
    ensures SumOver(sections + [x], ds) == SumOver(sections, ds) + (if x.difficulty in ds then x.items else 0)
  {
    var s := sections + [x];
    assert s[..|s| - 1] == sections;
    if ds != [] {
      var init := ds[..|ds| - 1];
      assert Distinct(init);
      SumOverSnoc(sections, x, init);
      assert x.difficulty in ds <==> x.difficulty in init || x.difficulty == ds[|ds| - 1];
      assert ds[|ds| - 1] in init ==> false;
    }
  }

  /** No items are counted at a difficulty no section has. */
  lemma {:induction false} ItemsOfAbsent(sections: seq<Section>, d: string)
    requires d !in Difficulties(sections)
    ensures ItemsOf(sections, d) == 0
  {
    if sections != [] {
      ItemsOfAbsent(sections[..|sections| - 1], d);
    }
  }

  /** The per-difficulty counts add up to the number of questions. */
  lemma {:induction false} DifficultyCountsSum(sections: seq<Section>)
    ensures SumOver(sections, Difficulties(sections)) == SumItems(sections)
  {
    if sections != [] {
      var init := sections[..|sections| - 1];
      var x := sections[|sections| - 1];
      assert sections == init + [x];
      var ds := Difficulties(init);
      DifficultyCountsSum(init);
      SumOverSnoc(init, x, ds);
      if x.difficulty !in ds {
        var ds' := ds + [x.difficulty];
        assert Difficulties(sections) == ds';
        assert ds'[..|ds'| - 1] == ds;
        ItemsOfAbsent(init, x.difficulty);
      }
    }
  }

  /** Every entry of the summary is non-empty, so the summary is empty exactly when
      there are no sections. */
  lemma SummaryEmpty(sections: seq<Section>)
    ensures Join(Labels(sections, Difficulties(sections)), Bullet) == [] <==> sections == []
  {
    if sections != [] {
      DifficultiesMeaning(sections);
      assert sections[0].difficulty in Difficulties(sections);
      assert Labels(sections, Difficulties(sections))[0] != [];
    }
  }

  // ---------------------------------------------------------------------------
  // Editing a section
  // ---------------------------------------------------------------------------

  /** The field an input edits: `keyof Section`. */
  datatype SectionKey = IdKey | NameKey | ItemsKey | DifficultyKey | MarksKey

  /** `{ ...section, [key]: nextValue }`, the number fields through `toNumber`. */
  function SetField(section: Section, key: SectionKey, value: string): (r: Section)
  {
    match key
    case IdKey => section.(id := value)
    case NameKey => section.(name := value)
    case ItemsKey => section.(items := ToNumber(value))
    case DifficultyKey => section.(difficulty := value)
    case MarksKey => section.(marks := ToNumber(value))
  }

  /** `handleSectionChange` (builder-client.tsx:150-163): the sections with id `id`
      have field `key` set to `value`, parsed with `toNumber` for items and marks;
      every other section is left as it was, and the list keeps its order and
      length. */
  function ChangeSection(sections: seq<Section>, id: string, key: SectionKey, value: string): (r: seq<Section>)
    ensures |r| == |sections|
    ensures forall k :: 0 <= k < |sections| && sections[k].id != id ==> r[k] == sections[k]
    ensures forall k :: 0 <= k < |sections| && sections[k].id == id ==>
              && (key == IdKey ==> r[k] == sections[k].(id := value))
              && (key == NameKey ==> r[k] == sections[k].(name := value))
              && (key == ItemsKey ==> r[k] == sections[k].(items := ToNumber(value)))
              && (key == DifficultyKey ==> r[k] == sections[k].(difficulty := value))
              && (key == MarksKey ==> r[k] == sections[k].(marks := ToNumber(value)))
  {
    seq(|sections|, k requires 0 <= k < |sections| => if sections[k].id != id then sections[k] else SetField(sections[k], key, value))
  }

  /** Applying the same edit twice is applying it once (an edit of anything but the
      id, which would change which sections match). */
  lemma ChangeSectionIdempotent(sections: seq<Section>, id: string, key: SectionKey, value: string)
    requires key != IdKey
    ensures ChangeSection(ChangeSection(sections, id, key, value), id, key, value) == ChangeSection(sections, id, key, value)
  {
  }

  /** The edit commutes with dropping the last section. */
  lemma ChangeSectionInit(sections: seq<Section>, id: string, key: SectionKey, value: string)
    requires sections != []
    ensures ChangeSection(sections, id, key, value)[..|sections| - 1] == ChangeSection(sections[..|sections| - 1], id, key, value)
  {
  }

  /** Editing the items of the one section with that id moves the question total by
      the difference; every other edit leaves it alone.  Marks likewise. */
  lemma {:induction false} ChangeSectionTotals(sections: seq<Section>, id: string, key: SectionKey, value: string)
    ensures var r := ChangeSection(sections, id, key, value);
            SumItems(r) == SumItems(sections) + (if key == ItemsKey then ItemsDelta(sections, id, ToNumber(value)) else 0)
            && SumMarks(r) == SumMarks(sections) + (if key == MarksKey then MarksDelta(sections, id, ToNumber(value)) else 0)
  {
    if sections != [] {
      ChangeSectionInit(sections, id, key, value);
      ChangeSectionTotals(sections[..|sections| - 1], id, key, value);
    }
  }

  /** What setting the items of every section with id `id` to `n` adds to the total. */
  function ItemsDelta(sections: seq<Section>, id: string, n: int): int
  {
    if sections == [] then 0
    else ItemsDelta(sections[..|sections| - 1], id, n) + (if sections[|sections| - 1].id == id then n - sections[|sections| - 1].items else 0)
  }

  /** What setting the marks of every section with id `id` to `n` adds to the total. */
  function MarksDelta(sections: seq<Section>, id: string, n: int): int
  {
    if sections == [] then 0
    else MarksDelta(sections[..|sections| - 1], id, n) + (if sections[|sections| - 1].id == id then n - sections[|sections| - 1].marks else 0)
  }

  /** With one section of that id, at `k`, the change is the new value less the old. */
  lemma {:induction false} DeltaOfOne(sections: seq<Section>, id: string, n: int, k: nat)
    requires k < |sections| && sections[k].id == id
    requires forall m :: 0 <= m < |sections| && m != k ==> sections[m].id != id
    ensures ItemsDelta(sections, id, n) == n - sections[k].items
    ensures MarksDelta(sections, id, n) == n - sections[k].marks
  {
    var init := sections[..|sections| - 1];
    if k < |init| {
      DeltaOfOne(init, id, n, k);
    } else {
      DeltaOfNone(init, id, n);
    }
  }

  lemma {:induction false} DeltaOfNone(sections: seq<Section>, id: string, n: int)
    requires forall m :: 0 <= m < |sections| ==> sections[m].id != id
    ensures ItemsDelta(sections, id, n) == 0 && MarksDelta(sections, id, n) == 0
  {
    if sections != [] {
      DeltaOfNone(sections[..|sections| - 1], id, n);
    }
  }

  // ---------------------------------------------------------------------------
  // Saved formats
  // ---------------------------------------------------------------------------

  /** The saved formats and the id of the one being edited (`null` is `None`). */
  datatype Library = Library(formats: seq<SavedFormat>, editingId: Option<string>)

  /** `editingFormatId ? savedFormats.find(...) : null` finds a format: the id is set,
      not the empty string (which JavaScript treats as false), and names a format. */
  predicate Editing(lib: Library) {
    && lib.editingId.Some?
    && lib.editingId.value != ""
    && exists k :: 0 <= k < |lib.formats| && lib.formats[k].id == lib.editingId.value
  }

  /** What a save writes: the format's name, time, status and snapshots of the details
      and sections, under the id `id`. */
  function Snapshot(id: string, details: ExamDetails, sections: seq<Section>, status: Status, savedAt: string): (f: SavedFormat)
    ensures f.id == id && f.name == BuildFormatName(details)
    ensures f.details == details && f.sections == sections
    ensures f.savedAt == savedAt && f.status == status
  {
    SavedFormat(id, BuildFormatName(details), savedAt, status, details, sections)
  }

  /** `saveFormat` (builder-client.tsx:183-224), with `savedAt` the clock reading and
      `freshId` the generated id.  When the edited id names a saved format, every format
      with that id is overwritten in place, the others and the list length unchanged;
      otherwise the new format is put first and becomes the one being edited. */
  function SaveFormat(lib: Library, details: ExamDetails, sections: seq<Section>, status: Status, savedAt: string, freshId: string): (r: Library)
    ensures Editing(lib) ==>
              && |r.formats| == |lib.formats| && r.editingId == lib.editingId
              && forall k :: 0 <= k < |lib.formats| ==>
                   r.formats[k] == (if lib.formats[k].id == lib.editingId.value
                                    then Snapshot(lib.formats[k].id, details, sections, status, savedAt)
                                    else lib.formats[k])
    ensures !Editing(lib) ==>
              && r.formats == [Snapshot(freshId, details, sections, status, savedAt)] + lib.formats
              && r.editingId == Some(freshId)
  {
    if Editing(lib) then
      var editing := lib.editingId.value;
      var formats := seq(|lib.formats|, k requires 0 <= k < |lib.formats| =>
                       if lib.formats[k].id == editing then lib.formats[k].(name := BuildFormatName(details), savedAt := savedAt, status := status, details := details, sections := sections)
                       else lib.formats[k]);
      Library(formats, lib.editingId)
    else
      Library([SavedFormat(freshId, BuildFormatName(details), savedAt, status, details, sections)] + lib.formats, Some(freshId))
  }

  /** After a save with a non-empty generated id, a format is being edited, so the
      next save updates it instead of adding another. */
  lemma SaveThenEditing(lib: Library, details: ExamDetails, sections: seq<Section>, status: Status, savedAt: string, freshId: string)
    requires freshId != ""
    ensures Editing(SaveFormat(lib, details, sections, status, savedAt, freshId))
  {
    var r := SaveFormat(lib, details, sections, status, savedAt, freshId);
    if Editing(lib) {
      var k :| 0 <= k < |lib.formats| && lib.formats[k].id == lib.editingId.value;
      assert r.formats[k].id == r.editingId.value;
    } else {
      assert r.formats[0].id == freshId;
    }
  }

  /** After a save whose generated id no saved format has, every format under the
      edited id holds what was saved. */
  lemma SaveHoldsSnapshot(lib: Library, details: ExamDetails, sections: seq<Section>, status: Status, savedAt: string, freshId: string)
    requires forall k :: 0 <= k < |lib.formats| ==> lib.formats[k].id != freshId
    ensures var r := SaveFormat(lib, details, sections, status, savedAt, freshId);
            r.editingId.Some? &&
            forall k :: 0 <= k < |r.formats| && r.formats[k].id == r.editingId.value ==>
              r.formats[k] == Snapshot(r.editingId.value, details, sections, status, savedAt)
  {
    var r := SaveFormat(lib, details, sections, status, savedAt, freshId);
    var saved := Snapshot(r.editingId.value, details, sections, status, savedAt);
    if Editing(lib) {
      forall k | 0 <= k < |r.formats| && r.formats[k].id == r.editingId.value ensures r.formats[k] == saved {
        assert lib.formats[k].id == r.editingId.value;
      }
    } else {
      forall k | 0 <= k < |r.formats| && r.formats[k].id == freshId ensures r.formats[k] == saved {
        assert k == 0;
      }
    }
  }

  /** Saving twice adds at most one format. */
  lemma SaveTwice(lib: Library, details: ExamDetails, sections: seq<Section>, status: Status, savedAt: string, freshId: string,
                  details': ExamDetails, sections': seq<Section>, status': Status, savedAt': string, freshId': string)
    requires freshId != ""
    ensures var once := SaveFormat(lib, details, sections, status, savedAt, freshId);
            var twice := SaveFormat(once, details', sections', status', savedAt', freshId');
            |twice.formats| == |once.formats| <= |lib.formats| + 1 && twice.editingId == once.editingId
  {
    SaveThenEditing(lib, details, sections, status, savedAt, freshId);
  }

  /** `prev.filter((format) => format.id !== id)`. */
  function Without(formats: seq<SavedFormat>, id: string): (r: seq<SavedFormat>)
    ensures |r| <= |formats|
  {
    if formats == [] then []
    else Without(formats[..|formats| - 1], id) + (if formats[|formats| - 1].id != id then [formats[|formats| - 1]] else [])
  }

  /** The filtered list holds exactly the formats with another id. */
  lemma {:induction false} WithoutMeaning(formats: seq<SavedFormat>, id: string)
    ensures forall f :: f in Without(formats, id) <==> f in formats && f.id != id
  {
    if formats != [] {
      var init := formats[..|formats| - 1];
      WithoutMeaning(init, id);
      assert formats == init + [formats[|formats| - 1]];
    }
  }

  /** A list without the id is its own filter. */
  lemma {:induction false} WithoutAbsent(formats: seq<SavedFormat>, id: string)
    requires forall k :: 0 <= k < |formats| ==> formats[k].id != id
    ensures Without(formats, id) == formats
  {
    if formats != [] {
      var init := formats[..|formats| - 1];
      WithoutAbsent(init, id);
      assert formats == init + [formats[|formats| - 1]];
    }
  }

  /** Filtering a list with a format in front filters the rest. */
  lemma {:induction false} WithoutCons(f: SavedFormat, formats: seq<SavedFormat>, id: string)
    ensures Without([f] + formats, id) == (if f.id != id then [f] else []) + Without(formats, id)
    decreases |formats|
  {
    var s := [f] + formats;
    if formats != [] {
      assert s[..|s| - 1] == [f] + formats[..|formats| - 1];
      WithoutCons(f, formats[..|formats| - 1], id);
    } else {
      assert s[..|s| - 1] == [];
    }
  }

  /** `handleDeleteFormat` (builder-client.tsx:233-238): every format with the id is
      removed and the rest keep their order; the edited id is cleared exactly when it
      is the deleted one. */
  function DeleteFormat(lib: Library, id: string): (r: Library)
    ensures forall k :: 0 <= k < |r.formats| ==> r.formats[k].id != id
    ensures forall f :: f in lib.formats && f.id != id ==> f in r.formats
    ensures r.editingId == None <==> lib.editingId == None || lib.editingId == Some(id)
    ensures r.editingId != None ==> r.editingId == lib.editingId
  {
    WithoutMeaning(lib.formats, id);
    Library(Without(lib.formats, id), if lib.editingId == Some(id) then None else lib.editingId)
  }

  /** Deleting a format that was just saved as new, under an id no other format has,
      gives back the list as it was, with nothing being edited. */
  lemma DeleteUndoesNewSave(lib: Library, details: ExamDetails, sections: seq<Section>, status: Status, savedAt: string, freshId: string)
    requires !Editing(lib)
    requires forall k :: 0 <= k < |lib.formats| ==> lib.formats[k].id != freshId
    ensures var r := DeleteFormat(SaveFormat(lib, details, sections, status, savedAt, freshId), freshId);
            r.formats == lib.formats && r.editingId == None
  {
    var saved := Snapshot(freshId, details, sections, status, savedAt);
    WithoutCons(saved, lib.formats, freshId);
    WithoutAbsent(lib.formats, freshId);
  }

  // ---------------------------------------------------------------------------
  // Readiness checks
  // ---------------------------------------------------------------------------

  datatype Check = Check(title: string, ok: bool)

  /** `sections.some((section) => section.name.trim().length === 0)`. */
  predicate HasEmptySectionName(sections: seq<Section>) {
    exists k :: 0 <= k < |sections| && |Trim(sections[k].name)| == 0
  }

  /** `sections.some((section) => section.items <= 0)`. */
  predicate HasZeroItems(sections: seq<Section>) {
    exists k :: 0 <= k < |sections| && sections[k].items <= 0
  }

  /** `sections.some((section) => section.marks <= 0)`. */
  predicate HasZeroMarks(sections: seq<Section>) {
    exists k :: 0 <= k < |sections| && sections[k].marks <= 0
  }

  /** The `checks` list (builder-client.tsx:240-275), with the section marks total
      that `totals` computes. */
  function Checks(details: ExamDetails, sections: seq<Section>): (checks: seq<Check>)
    ensures |checks| == 6
  {
    var marksMismatch := SumMarks(sections) != details.totalMarks;
    var hasEmptySectionName := HasEmptySectionName(sections);
    var hasZeroItems := HasZeroItems(sections);
    var hasZeroMarks := HasZeroMarks(sections);
    var hasNoSections := |sections| == 0;
    var invalidDuration := details.durationMinutes <= 0;
    var invalidTotalMarks := details.totalMarks <= 0;
    [ Check("Total section marks match target", !marksMismatch && !invalidTotalMarks),
      Check("At least one section defined", !hasNoSections),
      Check("All sections have names", !hasEmptySectionName),
      Check("All sections have items", !hasZeroItems),
      Check("All sections have marks", !hasZeroMarks),
      Check("Duration is set", !invalidDuration) ]
  }

  /** A name trims to nothing exactly when it is all whitespace. */
  lemma BlankNames(sections: seq<Section>)
    ensures HasEmptySectionName(sections) <==>
            !(forall k :: 0 <= k < |sections| ==> !AllSpaces(sections[k].name))
  {
    forall k | 0 <= k < |sections| ensures |Trim(sections[k].name)| == 0 <==> AllSpaces(sections[k].name) {
    }
  }

  /** The marks check passes exactly when the section marks add up to the target and
      the target is positive. */
  lemma MarksCheck(details: ExamDetails, sections: seq<Section>)
    ensures Checks(details, sections)[0].ok <==> SumMarks(sections) == details.totalMarks && details.totalMarks > 0
  {
  }

  /** The sections check passes exactly when there is a section. */
  lemma SectionsCheck(details: ExamDetails, sections: seq<Section>)
    ensures Checks(details, sections)[1].ok <==> |sections| > 0
  {
  }

  /** The duration check passes exactly when the duration is positive. */
  lemma DurationCheck(details: ExamDetails, sections: seq<Section>)
    ensures Checks(details, sections)[5].ok <==> details.durationMinutes > 0
  {
  }

  /** The section checks pass exactly when every section has a name that is not
      blank, a positive number of items and positive marks. */
  lemma SectionChecks(details: ExamDetails, sections: seq<Section>)
    ensures var checks := Checks(details, sections);
            && (checks[2].ok <==> forall k :: 0 <= k < |sections| ==> !AllSpaces(sections[k].name))
            && (checks[3].ok <==> forall k :: 0 <= k < |sections| ==> sections[k].items > 0)
            && (checks[4].ok <==> forall k :: 0 <= k < |sections| ==> sections[k].marks > 0)
  {
    BlankNames(sections);
  }

  /** Positive marks add up to at least one per section; likewise items. */
  lemma {:induction false} SumsAtLeastCount(sections: seq<Section>)
    requires forall k :: 0 <= k < |sections| ==> sections[k].items > 0 && sections[k].marks > 0
    ensures SumItems(sections) >= |sections| && SumMarks(sections) >= |sections|
  {
    if sections != [] {
      SumsAtLeastCount(sections[..|sections| - 1]);
    }
  }

  /** When every check passes, the target marks are the section marks, and there
      are at least as many of them, and of questions, as there are sections, and at
      least one section. */
  lemma AllChecksPass(details: ExamDetails, sections: seq<Section>)
    requires forall k :: 0 <= k < 6 ==> Checks(details, sections)[k].ok
    ensures details.totalMarks == SumMarks(sections) >= |sections| >= 1
    ensures SumItems(sections) >= |sections|
  {
    var checks := Checks(details, sections);
    assert checks[0].ok && checks[1].ok && checks[3].ok && checks[4].ok;
    MarksCheck(details, sections);
    SectionsCheck(details, sections);
    SectionChecks(details, sections);
    SumsAtLeastCount(sections);
  }
}
