/**
 * The records the scraper collects (main.go, types Example and Note), and
 * the abstract shape of what it reads from the site: a row of a grammar
 * listing table, and the "#main-content" elements of a detail page with
 * their "div.example-cont" blocks. HTML selection itself is not modelled:
 * each block is given by the four strings the selectors extract from it.
 */
module Notes {

  /** One example sentence of a grammar point. */
  datatype Example = Example(Id: string, Sentence: string, Reading: string, Meaning: string)

  /** One grammar point, as appended to allNotes and written to the output file. */
  datatype Note = Note(
    Id: string,
    Url: string,
    Grammar: string,
    Reading: string,
    Meaning: string,
    Image: string,
    Examples: seq<Example>)

  /** The fields read from one "tr.jl-row" of a listing page. */
  datatype ListingRow = ListingRow(Id: string, Grammar: string, Reading: string, Url: string, Meaning: string)

  /**
   * One "div.example-cont" block: its id attribute ("" when it has none)
   * and the texts of its Japanese sentence, reading and translation.
   */
  datatype ExampleBlock = ExampleBlock(Id: string, Sentence: string, Reading: string, Meaning: string)

  /** One element matching "#main-content": its header image and its example blocks in document order. */
  datatype MainContent = MainContent(Image: string, Blocks: seq<ExampleBlock>)
}
