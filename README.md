# SQLite console (`adatbaziscsinalo.py`) in Dafny

The program is an interactive, menu-driven SQLite console. The menu loop keeps at
most one database connection. The actions are:

- "1" opens a database file;
- "2" creates a table from a name and column definitions typed by the user;
- "3" inserts a row, asking for one value per column;
- "4" runs a query, but only one that starts with `select`;
- "5" lists the tables;
- "0" quits.

Query results are printed as a plain-text table with padded columns.

This project models the parts of the program that decide what is shown and
what is sent to the database engine:

- `result_table.dfy` (module `ResultTable`): the result-table renderer
  `print_query_results`. It computes column widths as maxima and renders the
  header, the dashed rule and the padded rows, with NULL shown as empty text.
- `insert_row.dfy` (module `InsertRow`): `action_insert_row`. It collects the
  non-blank answers into an insertion-ordered dict, then builds the
  parameterised `INSERT` statement and its parameter list.
- `table_list.dfy` (module `TableList`): `action_list_tables`, the numbered
  table menu, and how an answer to that menu is resolved. An answer of digits
  in range picks a table by its position; any other answer is used verbatim
  as a table name.
- `select_query.dfy` (module `SelectQuery`): the SELECT-only gate of
  `action_select_query`. The test is a case-insensitive prefix check on the
  stripped query.
- `create_table.dfy` (module `CreateTable`): the `CREATE TABLE IF NOT EXISTS`
  text of `action_create_table`. A parser is the partner of the template and
  gives a round trip.
- `prompt.dfy` (module `Prompt`): `input_non_empty`. It re-asks until a
  stripped line is non-empty.
- `session.dfy` (module `Session`): the `main` loop.
  - A pure state machine (`Step`, `Run`) shows how the choice sequence
    drives the current connection and the end of the loop.
  - The `Connection` and `Session` classes change state in place.
  - Choosing "1" again replaces the connection without closing the old one.
    `Session.Dispatch` states this: the old connection stays open.
- `text.dfy` (module `Text`): the Python string builtins the program relies
  on, for ASCII text:
  - `strip`, `lower`, `startswith`, `isdigit`, `int`, `str`;
  - `ljust`, `c * n` and `sep.join`.
- `outcome.dfy` (module `Outcomes`): what an action ends with. This is either
  the message it reports or the statement and parameters it executes.
- `wrappers.dfy` (module `Wrappers`): `Option`.

The database engine is not modelled. Its results are parameters of the
model:

- the table list;
- each table's column names;
- the rows and column names of a query result.

Lines typed at the console are given as sequences of strings. Running out of
lines stands for end of input.

## Model

| member | source | states |
|---|---|---|
| ResultTable.ColumnWidthIsMax | adatbaziscsinalo.py:199-207 | a column's width is at least its header's length and at least every cell's length (NULL counted as ""), and equals one of those lengths, so it is their maximum |
| ResultTable.ColumnWidths | adatbaziscsinalo.py:199-207 | the nested width loop yields one width per column, and each width is the maximum of the header and all cell lengths in that column |
| ResultTable.PrintQueryResults | adatbaziscsinalo.py:191-219 | the printed lines are exactly the rendering: the no-results message alone for zero rows, otherwise header, rule, then one line per row in order |
| ResultTable.PrintRows | adatbaziscsinalo.py:214-219 | the row loop prints one line per row, in row order, each the row's cells left-justified to the widths and joined by the column separator |
| ResultTable.NoRowsOnlyMessage | adatbaziscsinalo.py:192-195 | with no rows, only "Nincs találat." is printed: no header and no rule |
| ResultTable.LinesSameLength | adatbaziscsinalo.py:209-219 | there are rows+2 lines and every line has the same length, sum(widths) + 3*(columns-1) |
| ResultTable.ColumnAligned | adatbaziscsinalo.py:209-219 | on every line, column i sits at the same offset with the same width; there it holds the header name, the dashes, or the cell text, each left-justified to the column width |
| ResultTable.CellOnLine | adatbaziscsinalo.py:209-218 | the segment of one line at column i's offset is that column's header, dashes or left-justified cell |
| ResultTable.NullCellIsBlank | adatbaziscsinalo.py:214-218 | a NULL cell is rendered as exactly width[i] spaces |
| ResultTable.RuleIsDashesAndPluses | adatbaziscsinalo.py:210 | the rule line contains only '-' and '+' |
| ResultTable.CellsFit | adatbaziscsinalo.py:199-207 | every header and every cell text fits in its column's width, so ljust pads and never truncates |
| ResultTable.Example | adatbaziscsinalo.py:191-219 | the rendering of a two-column, two-row result with a NULL, written out character for character |
| ResultTable.ExampleWidths | adatbaziscsinalo.py:199-207 | in the example, the widths are 2 and 4: each header is longer than every cell below it |
| Prompt.InputNonEmpty | adatbaziscsinalo.py:23-28 | returns the first line that is non-empty after strip, stripped (non-empty, no surrounding whitespace); every line read before it was blank; None means the input ran out with all lines blank |
| TableList.ListTables | adatbaziscsinalo.py:259-276 | without a connection, nothing is listed; with no tables, only the empty message; otherwise a heading and one "  - name" line per table in catalog order |
| TableList.ResolveTable | adatbaziscsinalo.py:127-130 | the resolved name is either the answer itself or one of the listed tables |
| TableList.ResolveNumber | adatbaziscsinalo.py:127-128 | an all-digit answer whose value is in 1..n selects the table at that 1-based position |
| TableList.ResolveVerbatim | adatbaziscsinalo.py:129-130 | any other answer (not all digits, 0, or past the end) is taken verbatim as the table name |
| TableList.ShownNumberSelectsTable | adatbaziscsinalo.py:122-128 | the number printed next to a table in the menu selects exactly that table |
| TableList.LeadingZero | adatbaziscsinalo.py:127-128 | "01" selects the first table, because `int` accepts leading zeros |
| SelectQuery.GateSpelledOut | adatbaziscsinalo.py:243 | a query passes the gate iff its stripped text has at least 6 characters whose lowercase spells "select" |
| SelectQuery.GateAcceptsKeyword | adatbaziscsinalo.py:243 | the bare word "select" passes the gate |
| SelectQuery.GateIgnoresSuffix | adatbaziscsinalo.py:243 | the gate is a prefix test: anything appended to a passing query still passes |
| SelectQuery.GateIgnoresLeadingSpace | adatbaziscsinalo.py:243 | leading whitespace does not change the verdict |
| SelectQuery.GateRefusesDrop | adatbaziscsinalo.py:243-246 | "DROP TABLE x" is refused |
| SelectQuery.GateFoldsCase | adatbaziscsinalo.py:243 | "SELECT 1" passes: the keyword is matched case-insensitively |
| SelectQuery.GateStripsFirst | adatbaziscsinalo.py:243 | "  SELECT 1" passes: the query is stripped before the test |
| SelectQuery.GateAcceptsChained | adatbaziscsinalo.py:243 | "select 1; DROP TABLE x" passes the gate, since only the start is inspected |
| SelectQuery.RunSelect | adatbaziscsinalo.py:222-256 | the query is executed, unchanged and without parameters, iff a connection exists and it passes the gate; otherwise the no-database or only-SELECT message |
| CreateTable.CreateTableSql | adatbaziscsinalo.py:86 | the statement starts with "CREATE TABLE IF NOT EXISTS ", ends with ");" and is exactly as long as its pieces |
| CreateTable.CreateTableRoundTrip | adatbaziscsinalo.py:86 | parsing the statement gives back the name and definitions typed, provided the name does not contain " (" |
| CreateTable.ParseAnyCreateTable | adatbaziscsinalo.py:86 | every statement the template produces parses, whatever the name |
| CreateTable.RunCreateTable | adatbaziscsinalo.py:61-97 | without a connection, nothing is executed; otherwise exactly the templated statement is executed with no parameters; that statement always parses, and gives back the typed name and definitions when the name does not contain " (" |
| InsertRow.DictSet | adatbaziscsinalo.py:167 | dict assignment keeps keys distinct; a new key is appended at the end; an existing key keeps its place and takes the new value |
| InsertRow.KeptIndicesComplete | adatbaziscsinalo.py:164-167 | the kept positions are increasing and include every non-blank answer |
| InsertRow.CollectedIsKept | adatbaziscsinalo.py:163-167 | with distinct column names, the dict after the loop holds exactly the non-blank answers, stripped, under their columns, in column order |
| InsertRow.CollectValues | adatbaziscsinalo.py:163-167 | the input loop builds that dict, and with distinct columns it equals the reference selection of non-blank answers |
| InsertRow.NonBlankIffCollected | adatbaziscsinalo.py:163-172 | the dict is empty iff every answer is blank |
| InsertRow.BuildInsert | adatbaziscsinalo.py:169-177 | nothing is executed iff the dict is empty; otherwise one parameter per dict entry and as many `?` placeholders, the k-th parameter being the k-th entry's value and the k-th named column that entry's key |
| InsertRow.PlaceholderCount | adatbaziscsinalo.py:175 | the placeholder list holds exactly n question marks |
| InsertRow.InsertMatchesAnswers | adatbaziscsinalo.py:163-177 | no INSERT iff all answers are blank; otherwise the k-th column named is the k-th non-blank answer's column, the k-th parameter is that answer stripped, and there are as many '?' as parameters |
| InsertRow.KeptStatement | adatbaziscsinalo.py:174-177 | for the reference selection of answers: one '?' per value, values in order, and the k-th column named is the k-th kept answer's column |
| InsertRow.RunInsertRow | adatbaziscsinalo.py:108-188 | the whole action: no connection, no tables and an unknown table are reported; with a known table and an answer for every column, the outcome is always the statement built from the collected dict (executed iff some answer is non-blank, otherwise "nothing to insert"); end of input exactly when the lines run out before the last column |
| Text.ParseNatToString | adatbaziscsinalo.py:123-128 | `int(str(n)) == n` for the menu numbers |
| Text.TrimEmptyIff | adatbaziscsinalo.py:25-26 | a stripped line is empty iff the line is all whitespace |
| Text.JoinLength | adatbaziscsinalo.py:209-210 | a joined line is as long as its parts plus one separator between each two |
| Text.JoinSegment | adatbaziscsinalo.py:215-218 | each part appears unchanged at its offset in the joined line |
| Session.Step | adatbaziscsinalo.py:284-303 | one pass: "1" makes the newly opened path the current connection; every other choice keeps the connection; the loop stops iff the choice is "0" |
| Session.RunStopsAtFirstExit | adatbaziscsinalo.py:282-300 | the loop reads up to and including the first "0" and then stops; without a "0" it reads every command and is still running |
| Session.RunIgnoresRest | adatbaziscsinalo.py:296-300 | commands after the "0" change neither the final state nor the number read |
| Session.RunKeepsLastOpened | adatbaziscsinalo.py:280-295 | the final connection is the one opened by the last "1" among the commands read, or the initial one if there was none |
| Session.Connection.Open | adatbaziscsinalo.py:16-20 | a new connection to the given path is open |
| Session.Connection.Close | adatbaziscsinalo.py:298-299 | the connection is closed |
| Session.Session.constructor | adatbaziscsinalo.py:280 | the loop starts with no connection and running |
| Session.Session.Dispatch | adatbaziscsinalo.py:284-303 | the new state is `Step` of the old; "1" makes a fresh open connection and leaves the previous one as it was (still open); "0" closes the current one; other choices leave the connection as it was |
| Session.RunMenu | adatbaziscsinalo.py:279-303 | from a fresh session, the final state and the number of commands read are those of `Run`; after "0" the last connection is closed, while running it is open |

## Left out

- The database engine. This covers `sqlite3.connect`, `execute`, `commit`,
  `fetchall`, `PRAGMA table_info`, the schema catalog query and every
  `sqlite3.Error` path. Their results are parameters: a table list, a map from
  table name to column names, and query rows with column names. An executed
  statement is returned as an `Execute` outcome, not run.
- Console output and pauses: `clear_screen`, `print_header`, the menu text,
  the `dedent` help texts and the "press Enter" prompts. Each such prompt
  reads and discards one line; none changes the connection or any modelled
  value.
- The per-column description that `action_insert_row` prints from
  `PRAGMA table_info` (type, NOT NULL, PK, default). Only the column names
  are kept.
- `str()` of non-text values (integers, floats, blobs) in query results.
  Cells are given as their text, or as `None` for NULL.
- Unicode. `strip`, `lower` and `isdigit` are modelled on ASCII: whitespace
  is tab through carriage return, 0x1C-0x1F and space; case folding is A-Z;
  digits are 0-9. Python's versions also handle non-ASCII characters.
- `EOFError` on end of input. It is modelled as a `None` result or an
  `EndOfInput` outcome, not as an exception that ends the program.
- Session.Command: the choice is taken as `menu()` returns it, already
  stripped; the strip at adatbaziscsinalo.py:40 is not modelled, so an
  answer " 1 ", which the program dispatches as "1", is given to the model as "1".
- Session.RunMenu: the source loops until "0" and has no other way out; the
  model also stops when the supplied commands run out. Choices "2" to "5"
  are reduced to their effect on the connection: they hand back the one they
  were given. Their own behaviour is modelled in the other modules.
- ResultTable.PrintQueryResults: rows are required to have one cell per
  column. The cursor guarantees this.
- InsertRow.CollectedIsKept and InsertRow.InsertMatchesAnswers require
  distinct column names. SQLite does not allow a table with two columns of
  the same name. With repeated names, `InsertRow.Collected` still models the
  dict, in which a later answer overwrites an earlier one.
- CreateTable.CreateTableRoundTrip requires that the table name does not
  contain " (". The name is pasted into the statement unquoted, so such a
  name cannot be told apart from the definitions.
