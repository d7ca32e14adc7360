# Admin portal grid: staged edits, verified

This project models the editable grid of a single-page admin portal. The
sidebar lists named tables. Picking one shows a grid loaded from a CSV file.
An Edit button on each row opens a dialog. Typed edits are marked as
"pending" and highlighted until an administrator approves them. Approval is
outside this system.

What is modelled:

- **The CSV asset path** of a table (`GridTable.CsvPath`). It is the fixed
  directory `/assets/csv/`, then the table name lower-cased with every space
  turned into `_`, then `.csv`.
- **The column definitions** built from the keys of the first parsed row
  (`GridTable.Columns`). Each key gets one filterable data column whose cells
  use the pending highlight. A final "Actions" column follows, 100 wide, not
  filterable, holding the Edit button.
- **The cell highlight** (`GridTable.CellStyle`). A cell uses the pending
  colours exactly when its field is listed for its row in the pending changes.
- **The component's state and its handlers** (class `GridTable.Grid`). Its
  fields are the component's state variables: `rowData`, `colDefs`,
  `isModalOpen`, `selectedRowData`, `editedData` and `pendingChanges`. Its
  methods are the parse-complete callback (`Load`), the Edit button, typing
  into an input, Save, and Cancel/close. Each method replaces state fields
  the way the component's setters do.

Rows are JavaScript object references (`JsObject.Record`). The component
finds the selected row with `===` and `indexOf`, which compare references and
never contents. A record's contents (`JsObject.Fields`) are an ordered key
list plus a map from key to string, as `Object.keys` and property access see
them. A copy such as `{ ...data }` is a freshly allocated record. The
component never changes an object in place. It builds a new one for every
edit, and the model does the same.

The check on the numeric input is `JsNumber.IsNumeric`. It covers plain
decimal notation: surrounding blanks are ignored, a blank string counts as
the number 0, and otherwise an optional sign is followed by digits with at
most one decimal point and at least one digit.

The file name replaces each space with `_` one for one, so two spaces in a
row give two underscores.

The portal mounts one grid for the whole session. Picking another table
only hands that grid a new table name (`Grid.SelectTable`), and the rows are
then reloaded. The pending changes, the selection and the edit buffer
survive the switch. Pending changes are keyed by row index alone, so a
field pending in row 3 of one table is highlighted in row 3 of the next
table whenever that table has a column of the same name.

## Model

| member | source | states |
|---|---|---|
| `GridTable.ToLower` | src/components/GridTable.tsx:32 | `toLowerCase` keeps the length and lower-cases each character in place |
| `GridTable.ReplaceSpaces` | src/components/GridTable.tsx:32 | `replace(/ /g, "_")` keeps the length, turns each space into `_`, keeps every other character, and leaves no space |
| `GridTable.CsvPath` | src/components/GridTable.tsx:32 | the path starts with `/assets/csv/` and ends with `.csv`; between them stands the table name, same length, each character lower-cased or, for a space, `_`; the path has no space |
| `GridTable.SameCsvFile` | src/components/GridTable.tsx:32 | two table names load the same file if and only if they have the same length and agree character by character after lower-casing and mapping space to `_` |
| `GridTable.DataColumns` | src/components/GridTable.tsx:39-50 | one column per key, in key order, with `field` = key, `filter` = true, the pending cell style, and no header name or width |
| `GridTable.Columns` | src/components/GridTable.tsx:38-67 | key count plus one columns: the data columns for the keys in order, then the "actions" column with header "Actions", width 100 and `filter` = false, holding the Edit button |
| `GridTable.OneEditButton` | src/components/GridTable.tsx:52-65 | the Edit button is in exactly one column, the last |
| `GridTable.CellStyle` | src/components/GridTable.tsx:42-49 | pending colours `#ffefc3`/`#6c4e03` if and only if the row has an entry that lists the field; otherwise white/black, and always white/black for a row with no entry |
| `GridTable.AppendPending` | src/components/GridTable.tsx:92-95 | the row's list gains `name` at its end with no de-duplication; a row with no entry gets `[name]`; every other row's list and no other key changes |
| `GridTable.HighlightAfterAppend` | src/components/GridTable.tsx:43-48 | after an accepted edit, a cell is highlighted if and only if it was highlighted before or it is the edited field of the edited row |
| `GridTable.IndexOf` | src/components/GridTable.tsx:91 | `indexOf`: -1 exactly when no row is the selected object; otherwise the first position holding that object |
| `GridTable.ReplaceIdentical` | src/components/GridTable.tsx:99-101 | same number of rows; each row that is the selected object becomes the edit buffer; every other row stays |
| `GridTable.SaveWithoutSelection` | src/components/GridTable.tsx:99-101 | if the selected object is not among the rows, saving leaves the rows as they were |
| `GridTable.SavedCopyKeepsIndex` | src/components/GridTable.tsx:91-101 | after a save, `indexOf` finds the saved copy at the index the original had, and no longer finds the original |
| `GridTable.Grid.constructor` | src/components/GridTable.tsx:24-29 | initial state: no rows, no columns, dialog closed, no selection, empty edit buffer, no pending changes |
| `GridTable.Grid.Load` | src/components/GridTable.tsx:36-69 | a non-empty parse result sets the columns from its first row's keys and sets the rows to it; an empty result changes neither; nothing else changes |
| `GridTable.Grid.HandleEditButtonClick` | src/components/GridTable.tsx:75-79 | selection becomes the clicked row, the edit buffer a fresh copy of its fields, and the dialog opens; nothing else changes |
| `GridTable.Grid.HandleInputChange` | src/components/GridTable.tsx:81-96 | a non-numeric value for `numericField` raises the error toast and changes neither the edit buffer nor the pending changes; otherwise the buffer becomes a fresh copy with `name` set to the value and `name` is appended to the pending list of the selection's index (-1 if absent); rows, selection and dialog never change |
| `GridTable.Grid.HandleSave` | src/components/GridTable.tsx:98-105 | rows become the rows with the selected object replaced by the edit buffer; the dialog closes; the success toast is raised; pending changes are untouched |
| `GridTable.Grid.CloseModal` | src/components/GridTable.tsx:120 | only `isModalOpen` changes, to false (also the Cancel button at line 155) |
| `GridTable.Grid.SelectTable` | src/App.tsx:27-28 | picking another table changes only the grid's table name; all other state is kept |
| `GridTable.SwitchTable` | src/components/GridTable.tsx:31-73 | switching tables and loading the new rows keeps the pending changes, the selection and the edit buffer, so every cell keeps its style |
| `GridTable.EditAndSave` | src/components/GridTable.tsx:75-105 | opening a displayed row, typing an accepted value and saving puts a record with the new value and every other original field at that index, highlights that cell, keeps every other row, and closes the dialog |
| `JsObject.Assign` | src/components/GridTable.tsx:89 | `{ ...editedData, [name]: value }`: `name` holds the value, every other key holds what it held, old keys keep their order, a new key goes last, and well-formed objects stay well-formed |
| `JsObject.Record.constructor` | src/components/GridTable.tsx:77 | allocating a copy gives an object with exactly the given contents |
| `JsNumber.Trim` | src/components/GridTable.tsx:84 | `Number` ignores surrounding blanks: the result is the contiguous slice of the value left after dropping its leading and trailing blanks; it neither starts nor ends with a blank, and it is empty exactly for a blank value |
| `JsNumber.IsNumeric` | src/components/GridTable.tsx:84 | the `!isNaN(Number(value))` test: a blank value, the empty one included, is a number (it is 0); a value holding any character other than a blank, a digit, a sign or a decimal point is not |
| `GridTable.Rejects` | src/components/GridTable.tsx:84 | an input is refused only when its name is `numericField`, and never for a blank value |
| `JsNumber.RejectsTwoPoints` | src/components/GridTable.tsx:84 | a value with two decimal points is rejected as not a number |
| `JsNumber.AcceptsDigits` | src/components/GridTable.tsx:84 | a non-empty run of digits is accepted as a number |

## Left out

- JsNumber.IsNumeric: models `!isNaN(Number(value))` for plain decimal notation only. It rejects exponents (`1e3`), hexadecimal, octal and binary literals (`0x1f`) and `Infinity`, all of which JavaScript accepts. It trims only space, tab, line feed and carriage return, not the other Unicode white space JavaScript trims. Floating-point parsing itself is not modelled.
- JsObject.Assign: lists a new key last even when it is an array index such as "7". JavaScript's `Object.keys` lists array-index keys first, in ascending order. The grid never reads the key order of an edited object, because columns are built from freshly parsed rows.
- GridTable.ToLower: lower-cases only the ASCII letters A-Z. JavaScript's `toLowerCase` follows Unicode, changes other letters too, and can change a string's length.
- Downloading and parsing the CSV with papaparse, and the console message on a parse error. The parsed rows are the argument of `Grid.Load`.
- Re-running the loading effect whenever `pendingChanges` changes (line 73). That reload is asynchronous and replaces `rowData` with freshly parsed objects. This discards saved edits. It also means the open selection is no longer among the rows, so later edits in the same dialog are filed under row -1. The model has `Grid.Load` for the reload but does not model when React schedules it.
- The `cellStyle` closure capturing `pendingChanges` when the columns are built. `GridTable.CellStyle` takes the pending changes as an argument; the columns are rebuilt on each reload.
- React's render batching. Each handler is modelled as running against the state of the previous event.
- AG Grid row ids are strings of the row index, and the keys of `pendingChanges` are strings of `indexOf`'s result. Both are modelled as integers.
- Rendering and pagination, dialog mechanics, styling and the showing of toasts. The handlers return the toast they raise. The dialog's inputs exist only for columns 1 and 2 (line 135), so in practice `name` is one of those fields. `HandleInputChange` accepts any name.
- src/components/Header.tsx, src/components/Sidebar.tsx, src/components/MainContent.tsx, src/components/TableButton.tsx and src/App.tsx apart from handing the grid a new table name. They are UI composition: a sidebar toggle, a static list of table names and a static welcome panel.
- src/components/ParentTable.tsx: static sample data for a component that is not part of this model.
