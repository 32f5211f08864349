/**
 * The values that flow through the pandas data frames of the pipeline.
 *
 * A cell of an object column holds Python `None`, the float NaN (what pandas
 * reads for a column that a row never set, and what `str.extract` yields when
 * nothing matches) or a string.
 */
module Frame {
  import opened Wrappers

  datatype Cell = Null | NaN | Str(s: string)

  /** Python truthiness of a cell: `None` and `""` are falsy; NaN is a non-zero float, hence truthy. */
  predicate Truthy(c: Cell) {
    match c
    case Null => false
    case NaN => true
    case Str(s) => s != []
  }

  /** pandas' `isna`: both `None` and NaN count as missing. */
  predicate IsNA(c: Cell) {
    c.Null? || c.NaN?
  }

  /** Python's `str(x)` of a cell. */
  function PyStr(c: Cell): string {
    match c
    case Null => "None"
    case NaN => "nan"
    case Str(s) => s
  }

  /** The bibliographic columns the core only copies: pmid, title, keyword_list, mesh_list, year, forename, lastname, initials. */
  datatype Biblio = Biblio(
    pmid: Cell, title: Cell, keywordList: Option<seq<Cell>>, meshList: Option<seq<Cell>>,
    year: Cell, forename: Cell, lastname: Cell, initials: Cell)

  /** One row of the extracted frame: one author and one raw affiliation, with the author's GRID id if the source carried one. */
  datatype Record = Record(biblio: Biblio, identity: Cell, affiliation: Cell)

  /**
   * One row of the working frame. Columns that no stage has written yet hold NaN,
   * which is what pandas reads for them once the frame is reassembled.
   */
  datatype Row = Row(
    biblio: Biblio, identity: Cell, affiliation: Cell,
    email: Cell, postcode: Cell, country: Cell, organisation: Cell)
}
