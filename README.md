# jlpt-scraper: a verified model of its record shaping

The jlpt-scraper program crawls the grammar lists of jlptsensei.com for one JLPT
level. It reads each listing row and the detail page the row links to, and then
writes the collected grammar notes to `jlptnotes_<level>.csv` or
`jlptnotes_<level>.json`. This project models the deterministic part of
`main.go` in Dafny and proves properties of it:

- **Level resolver** (`Levels`). A fixed table gives the number of pages for N1–N5
  (7, 5, 5, 4, 3). Any other level is rejected, and the program then exits.
- **Listing URLs** (`Levels`). The crawl visits pages 1..pages, in order. `%d` is
  modelled as decimal rendering, and `PageOf` reads the page back from a URL.
- **Example selection** (`Selection`). On a detail page, the `div.example-cont`
  blocks are walked in document order. The first three with a non-empty `id` are
  kept. Blocks without an id are skipped and are not counted.
- **Note assembly** (`Selection`). A note is built from a listing row and the
  `#main-content` matches of its detail page.
- **Export** (`Export`). The file type is matched case-insensitively and the file
  is named after the level and format. Each note becomes an 18-field CSV record:
  six note fields, then three four-field example slots filled through a 12-slot
  buffer.
- **Run** (`Scraper`). This is the order of these steps in `main`. What the
  network returns is a parameter of the run.

The selection loop, the listing loop and the record/row loops of `writeCSV` are
methods with loop invariants. Each one is proved against a specification
function (`Select`, `ListingUrl`, `CsvRecord`), and the properties are proved as
lemmas about those functions. The main cross-function result is about the
buffer writes at `i*4 .. i*4+3`: they stay inside the 12-slot buffer exactly when
a note has at most three examples (`WriteRecord`), and every assembled note has
at most three (`BuildNote`). `Run` uses that assembly, so in this model it
always writes the header plus one record per note. The program as written
assembles notes differently (`BuildNoteAsWritten`), and then that guarantee
holds only for pages with at most one `#main-content` element. See "## Findings".

## Model

| member | source | states |
|---|---|---|
| `Levels.LevelPages` | main.go:39-50 | lookup succeeds exactly for "N1".."N5", and every page count is between 3 and 7 |
| `Levels.LevelPagesValues` | main.go:39-45 | N1→7, N2→5, N3→5, N4→4, N5→3; lower-case or unknown codes are rejected |
| `Levels.Decimal` | main.go:121 | the `%d` rendering of a page number is a non-empty string of digits with no leading zero |
| `Levels.DecimalRoundTrip` | main.go:121 | reading back a rendered page number gives the number |
| `Levels.ListingUrl` | main.go:121 | a listing URL starts with `https://jlptsensei.com/jlpt-<level>-grammar-list/page/`, ends with `/`, and has the page number in between |
| `Levels.ListingUrlPage` | main.go:121 | the page number can be recovered from every listing URL `https://jlptsensei.com/jlpt-<level>-grammar-list/page/<i>/` |
| `Levels.ListingUrlInjective` | main.go:120-123 | different pages of a level have different URLs |
| `Levels.ListingUrls` | main.go:120-123 | exactly `pages` URLs are visited, the k-th (from 0) being the URL of page k+1 |
| `Levels.ListingUrlsOrdered` | main.go:120-123 | visited URLs are pairwise distinct and name strictly increasing pages |
| `Selection.Kept` | main.go:76-91 | the blocks with an id give no more examples than there are blocks, and each of those examples has a non-empty Id |
| `Selection.Select` | main.go:76-92 | the selection is a prefix of the kept examples of at most three; it is all of them when fewer than three were kept; every Id is non-empty |
| `Selection.KeptAppend` | main.go:76-92 | keeping blocks with an id distributes over concatenation of block sequences |
| `Selection.KeptPositionsSound` | main.go:78-89 | the k-th kept example is built from the block at the k-th position, and that block has a non-empty id |
| `Selection.KeptPositionsIncreasing` | main.go:76 | kept examples follow document order |
| `Selection.KeptPositionsComplete` | main.go:78-90 | every block with a non-empty id is kept (before the limit applies) |
| `Selection.SelectIgnoresTail` | main.go:77 | once three blocks with an id have been seen, later blocks do not change the selection |
| `Selection.SelectSkipsEmptyId` | main.go:79 | a block without an id can be inserted anywhere without changing the selection or using up the limit |
| `Selection.CollectExamples` | main.go:76-92 | the ForEach pass appends the first (3 - counter) blocks with an id to the examples and counts them, and the counter never exceeds 3 |
| `Selection.SelectExamples` | main.go:75-93 | one `#main-content` callback yields at most three examples, each with a non-empty Id, and they are the first such blocks |
| `Selection.AsWrittenExamples` | main.go:68-93 | as written, a page with m `#main-content` matches gives at most 3·m examples, each with a non-empty Id |
| `Selection.NoteOf` | main.go:104-112 | a note carries its row's Id, Url, Grammar, Reading and Meaning and the last match's image, plus at most three examples with non-empty Ids |
| `Selection.BuildNoteAsWritten` | main.go:67-112 | as written, the note's examples are the concatenation of one selection per `#main-content` match: up to 3 per match, and the image is the last match's |
| `Selection.BuildNote` | main.go:67-112 | with one counter for the whole page, the note holds the row's fields, the last image and at most three examples with non-empty Ids |
| `Selection.SingleMatchAgrees` | main.go:72-93 | on a page with at most one `#main-content` element, both assemblies give the same examples |
| `Selection.DuplicateMainContentOverflows` | main.go:68-90 | as written, a page with two `#main-content` elements of three examples each yields six examples |
| `Export.ParseFileType` | main.go:127-134 | a flag is accepted exactly when its lower-case form is an output extension, and that extension is the chosen format's |
| `Export.ParseFileTypeAccepts` | main.go:127-134 | "csv" and "json" are accepted letter by letter ignoring case, and nothing else is |
| `Export.ParseFileTypeIgnoresCase` | main.go:127 | flags that differ only in letter case select the same format |
| `Export.Filename` | main.go:138 | the name is `jlptnotes_`, then the level, then `.`, then the format's extension (writeCSV forms the `.csv` name the same way at main.go:156) |
| `Export.FilenameInjective` | main.go:138 | distinct (level, format) pairs give distinct names `jlptnotes_<level>.<ext>` |
| `Export.CsvHeader` | main.go:168-172 | the header has 18 columns, and the first six are Id, Url, Grammar, Reading, Meaning and Image |
| `Export.CsvHeaderLayout` | main.go:168-172 | the header has 18 columns, and column 6+4i+j names field j of example i+1 |
| `Export.CsvRecord` | main.go:180-189 | a record has 18 fields, and the first six are the note's Id, Url, Grammar, Reading, Meaning and Image |
| `Export.StoreExample` | main.go:183-186 | the four writes put the example's Id, Sentence, Reading and Meaning at idx..idx+3 and leave the rest of the buffer unchanged |
| `Export.FilledAll` | main.go:181-187 | once all examples (at most three) are written, the buffer holds the three slots |
| `Export.CsvRecordLayout` | main.go:180-189 | a record is as wide as the header: fields 0–5 are Id, Url, Grammar, Reading, Meaning, Image, and field 6+4i+j is field j of example i or "" when there is none |
| `Export.CsvRecordRoundTrip` | main.go:180-189 | a note with at most three examples, all with non-empty Ids, is recovered exactly from its record |
| `Export.SlotExamplesFrom` | main.go:181-187 | slots i..2 of the example fields give back the examples from i on |
| `Export.FilledStep` | main.go:182-186 | writing example i at i*4..i*4+3 fills slot i and leaves the others |
| `Export.WriteRecord` | main.go:180-189 | the buffer writes stay in bounds exactly when the note has at most three examples; the record is then the note's 18-field record; otherwise Go panics at index 12 |
| `Export.WriteCsv` | main.go:167-193 | header first, then one record per note in input order, each 18 wide; it completes exactly when no note has more than three examples, and otherwise stops at the first such note, after writing the records of all notes before it |
| `Scraper.Run` | main.go:39-134 | an unknown level stops before any request; otherwise all listing URLs are visited in order; an unknown file type fails after the crawl; the output is named after the level and format; with notes assembled by `BuildNote`, a CSV file holds the header plus exactly one record per fetched note |

## Findings

| source | as written | input that shows it | evidently intended | confidence | as-written member | corrected member |
|---|---|---|---|---|---|---|
| main.go:68-93 | `exampleCount` is reset inside the `#main-content` callback, which colly runs once per matching element. The `examples` slice belongs to the row and keeps growing across matches. | A detail page with two elements with `id="main-content"`, each holding three `div.example-cont` blocks with ids. The note gets six examples, and `writeCSV` then writes `examples[12]` and panics. | At most three examples per note, which the 12-slot CSV buffer assumes | medium, not executed (needs a page that repeats the id) | `Selection.BuildNoteAsWritten`, `Selection.DuplicateMainContentOverflows` | `Selection.BuildNote` |

`Scraper.Run` assembles notes with the corrected `BuildNote`. For pages with a
single `#main-content` element, `SingleMatchAgrees` shows that it behaves like
the code as written.

## Left out

- HTTP and HTML: the colly collector, the CSS selectors, `Visit`, the `OnHTML`/`OnRequest` callbacks and domain allow-listing are not modelled. Listing rows and detail pages are abstract inputs (`ListingRow`, `MainContent`, `ExampleBlock`).
- Concurrency: the goroutine per row, the `WaitGroup` and the mutex-guarded append to `allNotes` are not modelled. The order of notes is a parameter of `Run` (the order they reached `allNotes`), and no claim is made about it.
- Link between crawl and notes: `Run` takes the fetched rows as given and does not relate them to the visited listing URLs, since that link is network I/O.
- Flag parsing and defaults are left out. `log.Fatalf` exits are modelled as the `InvalidLevel` and `InvalidFileType` results.
- File I/O: file creation errors, `encoding/csv` quoting and escaping, `Flush`, JSON encoding with indentation, and console logging are not modelled. Write errors are not modelled either. A failed header write (main.go:173-176) is logged and `writeCSV` returns before any record is written. A failed record write (main.go:190-192) is logged and the loop goes on. The CSV output is modelled as its rows of fields, and the JSON output as the notes it encodes.
- Export.Lower: lower-cases ASCII letters only, while Go's `strings.ToLower` lower-cases all of Unicode. The dispatch outcome is the same, because no non-ASCII character lower-cases to one of the letters of "csv" or "json".
- Scraper.Run: builds notes with the corrected `BuildNote`, not with the code as written (`BuildNoteAsWritten`). Its promise of one CSV record per note therefore does not cover a page with several `#main-content` elements, where the program as written can panic in `writeCSV`.
- Export.WriteCsv: a panic is modelled as the loop stopping with `complete` false. The rows before the panicking note are the ones the deferred `Flush` writes out. The process crash itself is not modelled.
