/**
 * The deterministic skeleton of main: resolve the level, visit its listing
 * pages in order, assemble one note per listing row from its detail page,
 * then dispatch on the file type and write the output file. What the
 * network returns is a parameter: one `Fetched` per row found on the
 * listing pages, in the order the notes reached allNotes.
 */
module Scraper {
  import opened Wrappers
  import opened Notes
  import opened Levels
  import opened Selection
  import opened Export

  /** A listing row and the "#main-content" matches of its detail page. */
  datatype Fetched = Fetched(Row: ListingRow, Detail: seq<MainContent>)

  datatype Output =
    | CsvFile(Name: string, Rows: seq<seq<string>>)
    | JsonFile(Name: string, Notes: seq<Note>)

  /** How a run ends: a fatal error, or the file written. `Visited` lists the listing URLs requested. */
  datatype RunResult =
    | InvalidLevel(Level: string)
    | InvalidFileType(Visited: seq<string>, FileType: string)
    | Written(Visited: seq<string>, File: Output)

  /**
   * One run of the scraper. An unknown level stops it before any request;
   * an unknown file type is noticed only after the crawl. A CSV file holds
   * the header and exactly one record per note, in the order of the notes.
   */
  method Run(level: string, fileType: string, fetched: seq<Fetched>) returns (r: RunResult)
    ensures r.InvalidLevel? <==> LevelPages(level).None?
    ensures r.InvalidFileType? <==> LevelPages(level).Some? && ParseFileType(fileType).None?
    ensures !r.InvalidLevel? ==>
      |r.Visited| == LevelPages(level).value &&
      forall k :: 0 <= k < |r.Visited| ==> r.Visited[k] == ListingUrl(level, k + 1)
    ensures r.Written? ==> ParseFileType(fileType).Some?
    ensures r.Written? ==> r.File.Name == Filename(level, ParseFileType(fileType).value)
    ensures r.Written? ==> (r.File.CsvFile? <==> ParseFileType(fileType) == Some(Csv))
    ensures r.Written? && r.File.JsonFile? ==>
      |r.File.Notes| == |fetched| &&
      forall k :: 0 <= k < |fetched| ==> r.File.Notes[k] == NoteOf(fetched[k].Row, fetched[k].Detail)
    ensures r.Written? && r.File.CsvFile? ==>
      |r.File.Rows| == |fetched| + 1 && r.File.Rows[0] == CsvHeader() &&
      forall k :: 0 <= k < |fetched| ==> r.File.Rows[k + 1] == CsvRecord(NoteOf(fetched[k].Row, fetched[k].Detail))
  {
    var pages := LevelPages(level);
    if pages.None? {
      return InvalidLevel(level);
    }
    var visited := ListingUrls(level, pages.value);
    var notes := [];
    for k := 0 to |fetched|
      invariant |notes| == k
      invariant forall m :: 0 <= m < k ==> notes[m] == NoteOf(fetched[m].Row, fetched[m].Detail)
      invariant forall m :: 0 <= m < k ==> |notes[m].Examples| <= SlotCount
    {
      var note := BuildNote(fetched[k].Row, fetched[k].Detail);
      notes := notes + [note];
    }
    var format := ParseFileType(fileType);
    match format {
      case None =>
        r := InvalidFileType(visited, fileType);
      case Some(Csv) =>
        var rows, complete := WriteCsv(notes);
        r := Written(visited, CsvFile(Filename(level, Csv), rows));
      case Some(Json) =>
        r := Written(visited, JsonFile(Filename(level, Json), notes));
    }
  }
}
