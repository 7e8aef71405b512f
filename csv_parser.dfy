/** The roster file format (src/utils/csvParser.ts): a header line followed by
    one line per person, seven comma-separated columns, no quoting. */
module CsvParser {
  import opened Types
  import opened Text

  /** A value as the parser delivers it: trimmed, and without a comma. */
  predicate CleanValue(v: string) {
    IsTrimmed(v) && ',' !in v
  }

  /** `line.split(',').map(v => v.trim())`. */
  function Values(line: string): (vs: seq<string>)
    ensures |vs| == Occurrences(line, ',') + 1
    ensures forall k :: 0 <= k < |vs| ==> CleanValue(vs[k])
  {
    var raw := Split(line, ',');
    TrimAllKeepsOut(raw, ',');
    seq(|raw|, k requires 0 <= k < |raw| => Trim(raw[k]))
  }

  lemma TrimAllKeepsOut(raw: seq<string>, c: char)
    requires forall k :: 0 <= k < |raw| ==> c !in raw[k]
    ensures forall k :: 0 <= k < |raw| ==> c !in Trim(raw[k])
  {
    forall k | 0 <= k < |raw| ensures c !in Trim(raw[k]) {
      TrimKeepsOut(raw[k], c);
    }
  }

  /** `values[k] || ''`: a missing value reads as empty (and so does an empty one). */
  function ValueOrEmpty(vs: seq<string>, k: nat): (v: string)
    ensures k < |vs| ==> v == vs[k]
    ensures k >= |vs| ==> v == ""
  {
    if k < |vs| then vs[k] else ""
  }

  /** One data line as a person: the k-th value fills the k-th column. */
  function ParseLine(line: string): (p: Person)
    ensures forall f | f in Fields(p) :: CleanValue(f)
  {
    var vs := Values(line);
    Person(
      firstName := ValueOrEmpty(vs, 0),
      lastName := ValueOrEmpty(vs, 1),
      idNumber := ValueOrEmpty(vs, 2),
      affiliation := ValueOrEmpty(vs, 3),
      dateOfBirth := ValueOrEmpty(vs, 4),
      uniqueId := ValueOrEmpty(vs, 5),
      createdAt := ValueOrEmpty(vs, 6))
  }

  /** `lines.map(...)` with ParseLine. */
  function ParseLines(lines: seq<string>): (people: seq<Person>)
    ensures |people| == |lines|
    ensures forall i :: 0 <= i < |lines| ==> people[i] == ParseLine(lines[i])
  {
    if |lines| == 0 then [] else [ParseLine(lines[0])] + ParseLines(lines[1..])
  }

  /** `csvText.trim().split('\n')`. */
  function Lines(csvText: string): (lines: seq<string>)
    ensures |lines| == Occurrences(Trim(csvText), '\n') + 1
  {
    Split(Trim(csvText), '\n')
  }

  /** `parseCSV`: the header line is dropped, every later line is one person,
      in file order. */
  function ParseCsv(csvText: string): (people: seq<Person>)
    ensures |people| == Occurrences(Trim(csvText), '\n')
    ensures forall i :: 0 <= i < |people| ==> people[i] == ParseLine(Lines(csvText)[i + 1])
  {
    ParseLines(Lines(csvText)[1..])
  }

  /** The roster is empty exactly when the trimmed text is a single line;
      in particular, an empty or all-whitespace text gives no person. */
  lemma ParseCsvEmpty(csvText: string)
    ensures ParseCsv(csvText) == [] <==> '\n' !in Trim(csvText)
    ensures AllWhitespace(csvText) ==> ParseCsv(csvText) == []
  {
    OccurrencesZero(Trim(csvText), '\n');
    TrimEmptyIff(csvText);
  }

  /** `trim` also removes a blank first line, so the first data line takes the
      header's place: a file of a blank line and one person's line holds nobody. */
  lemma BlankHeaderDropsFirstLine(line: string)
    requires IsTrimmed(line) && '\n' !in line
    ensures ParseCsv("\n" + line) == []
  {
    assert "\n" + line == "\n" + line + [];
    TrimUnique("\n" + line, "\n", line, []);
    ParseCsvEmpty("\n" + line);
  }

  /** The value a column takes from a line of values `vs`. */
  function Column(vs: seq<string>, k: nat): string {
    if k < |vs| then Trim(vs[k]) else ""
  }

  /** Each column reads the value at its position: values past the seventh are
      ignored, missing ones read as empty, and every comma separates values. */
  lemma ParseLineOfValues(vs: seq<string>)
    requires |vs| >= 1
    requires forall k :: 0 <= k < |vs| ==> ',' !in vs[k]
    ensures ParseLine(Join(vs, ',')) == Person(Column(vs, 0), Column(vs, 1), Column(vs, 2),
      Column(vs, 3), Column(vs, 4), Column(vs, 5), Column(vs, 6))
  {
    SplitJoin(vs, ',');
    var values := Values(Join(vs, ','));
    assert |values| == |vs|;
    assert forall k :: 0 <= k < |vs| ==> values[k] == Trim(vs[k]);
  }

  /** A person whose fields a roster line can carry unchanged. */
  ghost predicate Representable(p: Person) {
    forall f | f in Fields(p) :: CleanValue(f) && '\n' !in f
  }

  lemma RepresentableAt(p: Person, k: nat)
    requires Representable(p) && k < 7
    ensures CleanValue(Fields(p)[k]) && '\n' !in Fields(p)[k]
  {
    assert Fields(p)[k] in Fields(p);
  }

  /** The roster line that describes `p`. */
  function EncodeLine(p: Person): string {
    Join(Fields(p), ',')
  }

  lemma LineRoundTrip(p: Person)
    requires Representable(p)
    ensures ParseLine(EncodeLine(p)) == p
  {
    var fs := Fields(p);
    forall k | 0 <= k < 7 ensures ',' !in fs[k] && Column(fs, k) == fs[k] {
      RepresentableAt(p, k);
      TrimIdempotentOnTrimmed(fs[k]);
    }
    ParseLineOfValues(fs);
  }

  /** An encoded line is never blank at its end: it ends with the last
      column's last character or with the comma before an empty last column. */
  lemma EncodeLineEnds(p: Person)
    requires Representable(p)
    ensures |EncodeLine(p)| > 0 && !IsWhitespace(EncodeLine(p)[|EncodeLine(p)| - 1])
    ensures '\n' !in EncodeLine(p)
  {
    var fs := Fields(p);
    JoinSnoc(fs, ',');
    RepresentableAt(p, 6);
    forall k | 0 <= k < 7 ensures '\n' !in fs[k] {
      RepresentableAt(p, k);
    }
    JoinAvoids(fs, ',', '\n');
  }

  function EncodeLines(people: seq<Person>): (lines: seq<string>)
    ensures |lines| == |people|
  {
    seq(|people|, i requires 0 <= i < |people| => EncodeLine(people[i]))
  }

  /** A roster file: the header line, then one line per person. */
  function EncodeCsv(header: string, people: seq<Person>): string {
    Join([header] + EncodeLines(people), '\n')
  }

  /** A header without surrounding blanks and one line per representable person
      make a text that `trim` leaves as it is. */
  lemma EncodeCsvTrimmed(header: string, people: seq<Person>)
    requires |header| > 0 && IsTrimmed(header)
    requires forall i :: 0 <= i < |people| ==> Representable(people[i])
    ensures IsTrimmed(EncodeCsv(header, people))
  {
    var lines := [header] + EncodeLines(people);
    var text := EncodeCsv(header, people);
    if |people| > 0 {
      JoinSnoc(lines, '\n');
      var last := lines[|lines| - 1];
      assert last == EncodeLine(people[|people| - 1]);
      EncodeLineEnds(people[|people| - 1]);
      assert text[0] == header[0];
      assert text[|text| - 1] == last[|last| - 1];
    }
  }

  /** Parsing a roster file gives back the people it was written from, whatever
      its header says. */
  lemma CsvRoundTrip(header: string, people: seq<Person>)
    requires |header| > 0 && IsTrimmed(header) && '\n' !in header
    requires forall i :: 0 <= i < |people| ==> Representable(people[i])
    ensures ParseCsv(EncodeCsv(header, people)) == people
  {
    var lines := [header] + EncodeLines(people);
    var text := EncodeCsv(header, people);
    EncodeCsvTrimmed(header, people);
    TrimIdempotentOnTrimmed(text);
    forall k | 0 <= k < |lines| ensures '\n' !in lines[k] {
      if k > 0 { EncodeLineEnds(people[k - 1]); }
    }
    SplitJoin(lines, '\n');
    assert Lines(text) == lines;
    assert lines[1..] == EncodeLines(people);
    forall i | 0 <= i < |people| ensures ParseCsv(text)[i] == people[i] {
      LineRoundTrip(people[i]);
    }
  }
}
