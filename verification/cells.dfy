/**
 * Spreadsheet rows as the adapters see them: positional, loosely typed cells,
 * plus the errors that abort a batch. Every failure of the source is an
 * unchecked exception that ends the run, so one error type serves all adapters.
 */
module Cells {
  import opened Wrappers
  import opened Decimal

  /** A cell value; `None` is a null cell. */
  type Cell = Option<string>

  type Row = seq<Cell>

  datatype Error =
    | MissingCell(column: nat)             // row.get past the end of the row
    | NullCell(column: nat)                // a null cell that the source dereferences
    | MalformedInteger(cell: Cell)         // Integer.parseInt rejected the text
    | DuplicateDeletedCode(code: int)
    | DeletedCodeReused(code: int)
    | UnknownCodeType(text: string)        // EntryCodeType.valueOf rejected the text
    | DuplicateVendorCode(vendor: string)
    | DuplicateLegacyCode(legacy: Cell)
    | MalformedDirectoryNumber(text: string)
    | MalformedPhoneNumber(text: string)
    | ShortPhoneNumber(text: string)       // charAt(3) past the end of the text
    | MissingSecurityLevel(typeName: string)
    | TooManyDevices(count: nat)
    | InconsistentEntryCode                // exactly one of entry code and security level set
    | UnconsumedResidentCodes(count: nat)
    | InvalidLegacyCodeType(legacyName: Cell)

  /** `row.get(column)`, which throws when the row is too short. */
  function GetCell(row: Row, column: nat): (r: Result<Cell, Error>)
    ensures r.Success? <==> column < |row|
    ensures r.Success? ==> r.value == row[column]
    ensures r.Failure? ==> r.error == MissingCell(column)
  {
    if column < |row| then Success(row[column]) else Failure(MissingCell(column))
  }

  /** How `String.format("%s", cell)` renders a cell: a null cell becomes "null". */
  function CellText(c: Cell): string {
    match c
    case Some(text) => text
    case None => "null"
  }

  /** A cell that is present and holds a non-empty string. */
  predicate IsFilled(c: Cell) {
    c.Some? && |c.value| > 0
  }

  /** `Integer.parseInt((String) cell)`; a null cell throws like malformed text. */
  function ParseIntCell(c: Cell): (r: Result<int, Error>)
    ensures r.Success? <==> c.Some? && ParseInt(c.value).Some?
    ensures r.Success? ==> r.value == ParseInt(c.value).value && IsInt32(r.value)
    ensures r.Failure? ==> r.error == MalformedInteger(c)
  {
    match c
    case None => Failure(MalformedInteger(c))
    case Some(text) =>
      match ParseInt(text)
      case Some(n) => Success(n)
      case None => Failure(MalformedInteger(c))
  }
}
