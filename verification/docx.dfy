/**
 The word-processing document the two document converters read, reduced to
 what they look at: the text of each paragraph, and for each table its style
 and the text of every cell, row by row.
 */
module Docx {
  import opened Optional

  /** A table style; `name` is `None` when the style carries no name. */
  datatype Style = Style(name: Option<string>)

  /** A table: its style (`None` when it has none) and its rows, each row the
      texts of its cells from left to right. Rows may differ in length. */
  datatype Table = Table(style: Option<Style>, rows: seq<seq<string>>)

  /** The paragraphs of the body, in order, and its tables, in order. */
  datatype Document = Document(paragraphs: seq<string>, tables: seq<Table>)

  /** The rows of a table after its header row (row 0). */
  function BodyRows(t: Table): (r: seq<seq<string>>)
    ensures |r| == if t.rows == [] then 0 else |t.rows| - 1
  {
    if t.rows == [] then [] else t.rows[1..]
  }
}
