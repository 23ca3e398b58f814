/** The parsed table that the statistics engine consumes: one scalar per
    cell, rows as maps from column name to cell. */
module Cells {

  /** The cell values the statistics distinguish: the numbers, strings,
      booleans and nulls the CSV parser delivers with dynamic typing on.
      `Absent` stands for JavaScript's `undefined` (a key the row does not
      have); `NaN` is the one number that is not a valid number. */
  datatype Cell =
    | Num(x: real)
    | NaN
    | Str(s: string)
    | Bool(b: bool)
    | Null
    | Absent

  type Row = map<string, Cell>

  /** `row[header]` for a header that names one of the row's own keys or
      none: a key the row lacks reads as undefined. A header that names a
      property every object inherits (`toString`, `constructor`, ...) is
      treated the same way, although JavaScript would read the inherited
      value there. */
  function CellAt(row: Row, header: string): Cell {
    if header in row then row[header] else Absent
  }

  /** The cells dropped before any statistic is taken: null, undefined and
      the empty string. */
  predicate IsMissing(c: Cell) {
    c == Null || c == Absent || c == Str("")
  }

  /** `typeof val === 'number' && !isNaN(val)`. */
  predicate IsValidNumber(c: Cell) {
    c.Num?
  }
}
