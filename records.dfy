/** The pipeline's table: one `Row` per brand record. Columns that a stage
    has not filled yet hold their neutral value ("" / 0 / None). */
module Records {

  datatype Option<T> = None | Some(value: T)

  datatype Row = Row(
    brand: string,
    category: string,
    prompt: string,
    response: string,
    responseEmpty: bool,       // the ResponseEmpty helper column
    mentioned: nat,            // Mentioned, 0 or 1
    hasWiki: nat,              // HasWiki, 0 or 1
    wikiTitle: Option<string>) // WikiTitle, None for a missing title
}
