/** What one menu action ends with: the message it reports, or the
    statement it hands to the database engine. */
module Outcomes {

  datatype Outcome =
    | NoDatabase                                // no connection is open yet
    | NoTables                                  // the database has no table
    | NoSuchTable(name: string)                 // table_info listed no column
    | NothingToInsert                           // every column was left blank
    | OnlySelectAllowed                         // the query did not start with "select"
    | EndOfInput                                // the console ran out of lines
    | Execute(sql: string, params: seq<string>) // executed, then committed
    | Listing(lines: seq<string>)               // printed table names
}
