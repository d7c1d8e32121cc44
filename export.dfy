/**
 * The exporter (main.go, the file-type switch, writeJSON and writeCSV):
 * choosing the output format from the file-type flag, naming the output
 * file, and flattening each note into one fixed-width CSV record of six
 * note fields followed by three four-field example slots.
 */
module Export {
  import opened Wrappers
  import opened Notes
  import Levels

  datatype Format = Csv | Json

  /** Lower-case of one character; only ASCII letters change. */
  function LowerChar(c: char): char {
    if 'A' <= c <= 'Z' then ((c as int) + 32) as char else c
  }

  function Lower(s: string): string {
    seq(|s|, i requires 0 <= i < |s| => LowerChar(s[i]))
  }

  /** The format a file-type flag selects, or None when the program rejects it. */
  function ParseFileType(fileType: string): (r: Option<Format>)
    ensures r.None? ==> Lower(fileType) != Extension(Csv) && Lower(fileType) != Extension(Json)
    ensures r.Some? ==> Lower(fileType) == Extension(r.value)
  {
    var t := Lower(fileType);
    if t == "csv" then Some(Csv) else if t == "json" then Some(Json) else None
  }

  /** The flag is matched letter by letter, ignoring case; nothing else is accepted. */
  lemma ParseFileTypeAccepts(s: string)
    ensures ParseFileType(s) == Some(Csv) <==>
      |s| == 3 && s[0] in "cC" && s[1] in "sS" && s[2] in "vV"
    ensures ParseFileType(s) == Some(Json) <==>
      |s| == 4 && s[0] in "jJ" && s[1] in "sS" && s[2] in "oO" && s[3] in "nN"
  {
    var t := Lower(s);
    if |s| == 3 && s[0] in "cC" && s[1] in "sS" && s[2] in "vV" {
      assert t == "csv";
    }
    if |s| == 4 && s[0] in "jJ" && s[1] in "sS" && s[2] in "oO" && s[3] in "nN" {
      assert t == "json";
    }
    if t == "csv" {
      assert t[0] == 'c' && t[1] == 's' && t[2] == 'v';
    }
    if t == "json" {
      assert t[0] == 'j' && t[1] == 's' && t[2] == 'o' && t[3] == 'n';
    }
  }

  /** Two flags that differ only in the case of their letters select the same format. */
  lemma ParseFileTypeIgnoresCase(s: string, t: string)
    requires |s| == |t|
    requires forall i :: 0 <= i < |s| ==> LowerChar(s[i]) == LowerChar(t[i])
    ensures ParseFileType(s) == ParseFileType(t)
  {
    assert Lower(s) == Lower(t);
  }

  function Extension(f: Format): string {
    match f
    case Csv => "csv"
    case Json => "json"
  }

  /** The name of the output file for a level and format. */
  function Filename(level: string, f: Format): (name: string)
    ensures |name| == 11 + |level| + |Extension(f)|
    ensures name[..10] == "jlptnotes_" && name[10..10 + |level|] == level
    ensures name[10 + |level|] == '.' && name[11 + |level|..] == Extension(f)
  {
    "jlptnotes_" + level + "." + Extension(f)
  }

  /** Different levels or formats never write to the same file. */
  lemma FilenameInjective(l1: string, f1: Format, l2: string, f2: Format)
    requires Filename(l1, f1) == Filename(l2, f2)
    ensures l1 == l2 && f1 == f2
  {
    var n := Filename(l1, f1);
    assert n[|n| - 1] == Extension(f1)[|Extension(f1)| - 1];
    assert n[|n| - 1] == Extension(f2)[|Extension(f2)| - 1];
    assert f1 == f2;
    assert l1 == n[10..|n| - 1 - |Extension(f1)|];
    assert l2 == n[10..|n| - 1 - |Extension(f2)|];
  }

  /** Fields of a record before the example slots. */
  const NoteFieldCount: nat := 6
  /** Fields per example slot. */
  const SlotWidth: nat := 4
  /** Example slots per record. */
  const SlotCount: nat := 3

  /** The header row of the CSV file. */
  function CsvHeader(): (h: seq<string>)
    ensures |h| == NoteFieldCount + SlotCount * SlotWidth
    ensures h[..NoteFieldCount] == ["Id", "Url", "Grammar", "Reading", "Meaning", "Image"]
  {
    ["Id", "Url", "Grammar", "Reading", "Meaning", "Image",
     "Example1 ID", "Example1 Sentence", "Example1 Reading", "Example1 Meaning",
     "Example2 ID", "Example2 Sentence", "Example2 Reading", "Example2 Meaning",
     "Example3 ID", "Example3 Sentence", "Example3 Reading", "Example3 Meaning"]
  }

  /** The header has one column per record field, and names slot i's fields after example i + 1. */
  lemma CsvHeaderLayout(i: nat, j: nat)
    requires i < SlotCount && j < SlotWidth
    ensures |CsvHeader()| == NoteFieldCount + SlotCount * SlotWidth
    ensures CsvHeader()[NoteFieldCount + SlotWidth * i + j] ==
      "Example" + [Levels.DigitChar(i + 1)] + " " + ["ID", "Sentence", "Reading", "Meaning"][j]
  {
  }

  /** Field j of an example: its Id, Sentence, Reading and Meaning in that order. */
  function ExampleField(e: Example, j: nat): string
    requires j < SlotWidth
  {
    [e.Id, e.Sentence, e.Reading, e.Meaning][j]
  }

  /** The four fields of example slot i: the i-th example's, or empty strings when there is none. */
  function Slot(examples: seq<Example>, i: nat): seq<string> {
    if i < |examples| then [examples[i].Id, examples[i].Sentence, examples[i].Reading, examples[i].Meaning]
    else EmptySlot
  }

  const EmptySlot: seq<string> := ["", "", "", ""]

  /** The CSV record of a note. */
  function CsvRecord(n: Note): (r: seq<string>)
    ensures |r| == NoteFieldCount + SlotCount * SlotWidth
    ensures r[..NoteFieldCount] == [n.Id, n.Url, n.Grammar, n.Reading, n.Meaning, n.Image]
  {
    [n.Id, n.Url, n.Grammar, n.Reading, n.Meaning, n.Image]
      + Slot(n.Examples, 0) + Slot(n.Examples, 1) + Slot(n.Examples, 2)
  }

  /**
   * Every record is as wide as the header; field 6 + 4i + j holds field j
   * of example i, or "" when the note has no example i.
   */
  lemma CsvRecordLayout(n: Note, i: nat, j: nat)
    requires i < SlotCount && j < SlotWidth
    ensures |CsvRecord(n)| == |CsvHeader()|
    ensures CsvRecord(n)[..NoteFieldCount] == [n.Id, n.Url, n.Grammar, n.Reading, n.Meaning, n.Image]
    ensures CsvRecord(n)[NoteFieldCount + SlotWidth * i + j] ==
      if i < |n.Examples| then ExampleField(n.Examples[i], j) else ""
  {
    var r, ex := CsvRecord(n), n.Examples;
    assert r == [n.Id, n.Url, n.Grammar, n.Reading, n.Meaning, n.Image] + Slot(ex, 0) + Slot(ex, 1) + Slot(ex, 2);
    if i == 0 {
      assert r[6..10] == Slot(ex, 0);
    } else if i == 1 {
      assert r[10..14] == Slot(ex, 1);
    } else {
      assert r[14..18] == Slot(ex, 2);
    }
  }

  /** The examples stored in slots i .. 2 of the example fields: the slots whose Id field is non-empty. */
  function SlotExamples(fields: seq<string>, i: nat): seq<Example>
    requires |fields| == SlotCount * SlotWidth && i <= SlotCount
    decreases SlotCount - i
  {
    if i == SlotCount then [] else SlotExample(fields[SlotWidth * i..SlotWidth * i + SlotWidth]) + SlotExamples(fields, i + 1)
  }

  /** The example one four-field slot holds: none when its Id field is empty. */
  function SlotExample(slot: seq<string>): seq<Example>
    requires |slot| == SlotWidth
  {
    if slot[0] == "" then [] else [Example(slot[0], slot[1], slot[2], slot[3])]
  }

  /** Reading a CSV record back into a note, or None when it has the wrong width. */
  function ParseRecord(r: seq<string>): Option<Note> {
    if |r| != NoteFieldCount + SlotCount * SlotWidth then None
    else Some(Note(r[0], r[1], r[2], r[3], r[4], r[5], SlotExamples(r[NoteFieldCount..], 0)))
  }

  /**
   * A note with at most three examples, each with a non-empty Id (what
   * example selection produces), is recovered exactly from its record.
   */
  lemma CsvRecordRoundTrip(n: Note)
    requires |n.Examples| <= SlotCount
    requires forall k :: 0 <= k < |n.Examples| ==> n.Examples[k].Id != ""
    ensures ParseRecord(CsvRecord(n)) == Some(n)
  {
    var f := CsvRecord(n)[NoteFieldCount..];
    var ex := n.Examples;
    assert f == Slot(ex, 0) + Slot(ex, 1) + Slot(ex, 2);
    assert f[0..4] == Slot(ex, 0) && f[4..8] == Slot(ex, 1) && f[8..12] == Slot(ex, 2);
    forall s | 0 <= s < SlotCount
      ensures f[SlotWidth * s..SlotWidth * s + SlotWidth] == Slot(ex, s)
    {
      if s == 0 { assert SlotWidth * s == 0; } else if s == 1 { assert SlotWidth * s == 4; } else { assert SlotWidth * s == 8; }
    }
    SlotExamplesFrom(ex, f, 0);
  }

  /** Slots i .. 2 of a note's example fields give back its examples from i on. */
  lemma {:induction false} SlotExamplesFrom(ex: seq<Example>, f: seq<string>, i: nat)
    requires |ex| <= SlotCount && i <= SlotCount && |f| == SlotCount * SlotWidth
    requires forall k :: 0 <= k < |ex| ==> ex[k].Id != ""
    requires forall s :: 0 <= s < SlotCount ==> f[SlotWidth * s..SlotWidth * s + SlotWidth] == Slot(ex, s)
    ensures SlotExamples(f, i) == if i < |ex| then ex[i..] else []
    decreases SlotCount - i
  {
    if i < SlotCount {
      SlotExamplesFrom(ex, f, i + 1);
      assert f[SlotWidth * i..SlotWidth * i + SlotWidth] == Slot(ex, i);
      if i < |ex| {
        assert SlotExample(Slot(ex, i)) == [ex[i]];
        assert ex[i..] == [ex[i]] + if i + 1 < |ex| then ex[i + 1..] else [];
      } else {
        assert SlotExample(Slot(ex, i)) == [];
      }
    }
  }

  /** The example buffer once the first i examples have been written into it. */
  function Filled(examples: seq<Example>, i: nat): seq<string> {
    (if 0 < i then Slot(examples, 0) else EmptySlot)
      + (if 1 < i then Slot(examples, 1) else EmptySlot)
      + (if 2 < i then Slot(examples, 2) else EmptySlot)
  }

  /** Writing example i at i*4 .. i*4+3 of the buffer fills slot i. */
  lemma FilledStep(examples: seq<Example>, i: nat)
    requires i < SlotCount && i < |examples|
    ensures |Filled(examples, i)| == SlotCount * SlotWidth
    ensures Filled(examples, i + 1) ==
      Filled(examples, i)[..SlotWidth * i] + Slot(examples, i) + Filled(examples, i)[SlotWidth * i + SlotWidth..]
  {
  }

  /** Once every example (at most three) is written, the buffer holds all three slots. */
  lemma FilledAll(examples: seq<Example>)
    requires |examples| <= SlotCount
    ensures Filled(examples, |examples|) == Slot(examples, 0) + Slot(examples, 1) + Slot(examples, 2)
  {
  }

  /** The four writes of one example into the buffer, at idx .. idx+3. */
  method StoreExample(examples: array<string>, idx: nat, ex: Example)
    requires idx + SlotWidth <= examples.Length
    modifies examples
    ensures examples[..] == old(examples[..])[..idx] + [ex.Id, ex.Sentence, ex.Reading, ex.Meaning] + old(examples[..])[idx + SlotWidth..]
  {
    examples[idx] := ex.Id;
    examples[idx + 1] := ex.Sentence;
    examples[idx + 2] := ex.Reading;
    examples[idx + 3] := ex.Meaning;
  }

  /** The outcome of building one record: the fields, or the index at which Go panics. */
  datatype RecordResult = Record(fields: seq<string>) | IndexOutOfRange(index: int)

  /**
   * The body of writeCSV's loop for one note: fill a 12-slot buffer of
   * empty strings at i*4 .. i*4+3 for each example i, then append it to
   * the note's six fields. A write past the buffer is Go's index-out-of-
   * range panic; it happens exactly when the note has more than three
   * examples, at index 12.
   */
  method WriteRecord(note: Note) returns (r: RecordResult)
    ensures r.Record? <==> |note.Examples| <= SlotCount
    ensures r.Record? ==> r.fields == CsvRecord(note) && |r.fields| == |CsvHeader()|
    ensures r.IndexOutOfRange? ==> r.index == SlotCount * SlotWidth
  {
    var examples := new string[SlotCount * SlotWidth](_ => "");
    ghost var exs := note.Examples;
    assert examples[..] == Filled(exs, 0);
    var i := 0;
    while i < |note.Examples|
      invariant 0 <= i <= |note.Examples| && i <= SlotCount
      invariant examples.Length == SlotCount * SlotWidth
      invariant examples[..] == Filled(exs, i)
    {
      var ex := note.Examples[i];
      var idx := i * 4;
      if idx >= examples.Length {
        return IndexOutOfRange(idx);
      }
      StoreExample(examples, idx, ex);
      assert [ex.Id, ex.Sentence, ex.Reading, ex.Meaning] == Slot(exs, i);
      FilledStep(exs, i);
      i := i + 1;
    }
    var fields := examples[..];
    FilledAll(exs);
    assert fields == Slot(exs, 0) + Slot(exs, 1) + Slot(exs, 2);
    r := Record([note.Id, note.Url, note.Grammar, note.Reading, note.Meaning, note.Image] + fields);
  }

  /**
   * writeCSV's rows: the header, then one record per note in order. A note
   * with more than three examples panics; the rows before it are still
   * flushed by the deferred Flush, and `complete` is false.
   */
  method WriteCsv(notes: seq<Note>) returns (rows: seq<seq<string>>, complete: bool)
    ensures 1 <= |rows| <= |notes| + 1 && rows[0] == CsvHeader()
    ensures forall k :: 0 <= k < |rows| - 1 ==> |notes[k].Examples| <= SlotCount && rows[k + 1] == CsvRecord(notes[k])
    ensures complete <==> forall k :: 0 <= k < |notes| ==> |notes[k].Examples| <= SlotCount
    ensures complete <==> |rows| == |notes| + 1
    ensures !complete ==> |notes[|rows| - 1].Examples| > SlotCount
    ensures forall k :: 0 <= k < |rows| ==> |rows[k]| == |CsvHeader()|
  {
    rows := [CsvHeader()];
    for k := 0 to |notes|
      invariant |rows| == k + 1 && rows[0] == CsvHeader()
      invariant forall m :: 0 <= m < k ==> |notes[m].Examples| <= SlotCount && rows[m + 1] == CsvRecord(notes[m])
      invariant forall m :: 0 <= m < |rows| ==> |rows[m]| == |CsvHeader()|
    {
      var r := WriteRecord(notes[k]);
      if r.IndexOutOfRange? {
        return rows, false;
      }
      rows := rows + [r.fields];
    }
    complete := true;
  }
}
