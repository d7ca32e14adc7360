/** The editable grid that shows one CSV-backed table of the admin portal.

    Pure parts: the asset path a table name maps to, the column definitions
    built from the first parsed row, and the cell style that highlights
    fields with pending edits. Stateful part: the component's state record
    and its event handlers (open the edit dialog, type into a field, save,
    cancel), modelled as a class whose fields are the state variables and
    whose methods replace them as the setters do. */
module GridTable {
  import opened Wrappers
  import opened JsObject
  import JsNumber

  // ---------------------------------------------------------------------------
  // CSV asset path

  const CsvDir: string := "/assets/csv/"
  const CsvExt: string := ".csv"

  /** `toLowerCase` on one character; only the ASCII letters A-Z change. */
  function ToLowerChar(c: char): (d: char)
    ensures !('A' <= d <= 'Z')
    ensures 'A' <= c <= 'Z' ==> 'a' <= d <= 'z' && d as int - 'a' as int == c as int - 'A' as int
    ensures !('A' <= c <= 'Z') ==> d == c
  {
    if 'A' <= c <= 'Z' then (c as int - 'A' as int + 'a' as int) as char else c
  }

  /** `s.toLowerCase()`, character by character. */
  function ToLower(s: string): (r: string)
    ensures |r| == |s|
    ensures forall i :: 0 <= i < |s| ==> r[i] == ToLowerChar(s[i])
  {
    if s == [] then [] else [ToLowerChar(s[0])] + ToLower(s[1..])
  }

  /** `s.replace(/ /g, "_")`: every space becomes an underscore, nothing else changes. */
  function ReplaceSpaces(s: string): (r: string)
    ensures |r| == |s|
    ensures forall i :: 0 <= i < |s| ==> r[i] == if s[i] == ' ' then '_' else s[i]
    ensures ' ' !in r
  {
    if s == [] then [] else [if s[0] == ' ' then '_' else s[0]] + ReplaceSpaces(s[1..])
  }

  /** What one character of a table name becomes in its file name. */
  function FileNameChar(c: char): char
  {
    if c == ' ' then '_' else ToLowerChar(c)
  }

  /** The CSV file a table is loaded from: the fixed directory, the table
      name lower-cased with every space turned into an underscore, and the
      `.csv` extension. */
  function CsvPath(tableName: string): (path: string)
    ensures |path| == |CsvDir| + |tableName| + |CsvExt|
    ensures path[..|CsvDir|] == CsvDir
    ensures path[|path| - |CsvExt|..] == CsvExt
    ensures forall i :: 0 <= i < |tableName| ==> path[|CsvDir| + i] == FileNameChar(tableName[i])
    ensures ' ' !in path
  {
    var middle := ReplaceSpaces(ToLower(tableName));
    assert forall i :: 0 <= i < |tableName| ==> middle[i] == FileNameChar(tableName[i]);
    CsvDir + middle + CsvExt
  }

  /** Two table names share a CSV file exactly when they agree character by
      character once case and the space/underscore distinction are ignored. */
  lemma SameCsvFile(a: string, b: string)
    ensures CsvPath(a) == CsvPath(b) <==>
      |a| == |b| && forall i :: 0 <= i < |a| ==> FileNameChar(a[i]) == FileNameChar(b[i])
  {
  }

  // ---------------------------------------------------------------------------
  // Column definitions

  /** What a column's cells hold: a data cell styled by `CellStyle`, or the
      Edit button that opens the dialog for its row. */
  datatype CellKind = PendingHighlight | EditButton

  /** The fields of a column definition that the component sets. */
  datatype ColumnDef = ColumnDef(
    field: string,
    filter: bool,
    headerName: Option<string>,
    width: Option<int>,
    cell: CellKind)

  /** The column shown for one key of the first parsed row. */
  function DataColumn(key: string): ColumnDef
  {
    ColumnDef(key, true, None, None, PendingHighlight)
  }

  /** The trailing column that holds each row's Edit button. */
  const ActionsColumn: ColumnDef := ColumnDef("actions", false, Some("Actions"), Some(100), EditButton)

  /** `keys.map(key => ({ field: key, filter: true, cellStyle }))`. */
  function DataColumns(keys: seq<string>): (cols: seq<ColumnDef>)
    ensures |cols| == |keys|
    ensures forall i :: 0 <= i < |keys| ==>
      cols[i].field == keys[i] && cols[i].filter && cols[i].cell == PendingHighlight
      && cols[i].headerName.None? && cols[i].width.None?
  {
    if keys == [] then [] else [DataColumn(keys[0])] + DataColumns(keys[1..])
  }

  /** The column definitions for a table whose first row has the given keys:
      one filterable, highlighted column per key in key order, then the
      unfilterable "Actions" column of width 100. */
  function Columns(keys: seq<string>): (cols: seq<ColumnDef>)
    ensures |cols| == |keys| + 1
    ensures forall i :: 0 <= i < |keys| ==>
      cols[i].field == keys[i] && cols[i].filter && cols[i].cell == PendingHighlight
    ensures var last := cols[|keys|];
      last.field == "actions" && !last.filter && last.width == Some(100)
      && last.headerName == Some("Actions") && last.cell == EditButton
  {
    DataColumns(keys) + [ActionsColumn]
  }

  /** Exactly one column, the last, carries the Edit button. */
  lemma OneEditButton(keys: seq<string>)
    ensures forall i :: 0 <= i < |Columns(keys)| ==>
      (Columns(keys)[i].cell == EditButton <==> i == |keys|)
  {
  }

  // ---------------------------------------------------------------------------
  // Pending changes and the highlight of a cell

  /** Row index to the names of the fields edited in that row and not yet
      approved, in the order they were edited (with repetitions). */
  type PendingChanges = map<int, seq<string>>

  /** `pendingChanges[rowId]?.includes(field)`. */
  predicate IsPending(pending: PendingChanges, rowId: int, field: string)
  {
    match Lookup(pending, rowId)
    case None => false
    case Some(fields) => field in fields
  }

  datatype Style = Style(backgroundColor: string, color: string)

  const PendingStyle: Style := Style("#ffefc3", "#6c4e03")
  const PlainStyle: Style := Style("white", "black")

  /** The `cellStyle` callback: the pending colours exactly when the cell's
      field is listed for its row, plain colours otherwise (in particular for
      every cell of a row with no entry). */
  function CellStyle(pending: PendingChanges, rowId: int, field: string): (s: Style)
    ensures s == PendingStyle <==> rowId in pending && field in pending[rowId]
    ensures s == PendingStyle || s == PlainStyle
    ensures rowId !in pending ==> s == PlainStyle
  {
    if IsPending(pending, rowId, field) then PendingStyle else PlainStyle
  }

  /** The functional update `{ ...prev, [rowId]: [...(prev[rowId] || []), name] }`:
      `name` is added at the end of the row's list, duplicates included, and
      every other row's list stays as it was. */
  function AppendPending(pending: PendingChanges, rowId: int, name: string): (r: PendingChanges)
    ensures r.Keys == pending.Keys + {rowId}
    ensures rowId in pending ==> r[rowId] == pending[rowId] + [name]
    ensures rowId !in pending ==> r[rowId] == [name]
    ensures forall k :: k in pending && k != rowId ==> r[k] == pending[k]
  {
    var before := match Lookup(pending, rowId) case Some(fields) => fields case None => [];
    pending[rowId := before + [name]]
  }

  /** After an accepted edit the highlighted cells are those highlighted
      before plus the edited field of the edited row. */
  lemma HighlightAfterAppend(pending: PendingChanges, row: int, name: string, rowId: int, field: string)
    ensures CellStyle(AppendPending(pending, row, name), rowId, field) == PendingStyle
        <==> CellStyle(pending, rowId, field) == PendingStyle || (rowId == row && field == name)
  {
  }

  // ---------------------------------------------------------------------------
  // Row identity

  /** `rows.indexOf(target)`: the first position holding that very object, or
      -1 when no row is that object. */
  function IndexOf(rows: seq<Record>, target: Record?): (i: int)
    ensures -1 <= i < |rows|
    ensures i == -1 <==> forall j :: 0 <= j < |rows| ==> rows[j] != target
    ensures 0 <= i ==> rows[i] == target && forall j :: 0 <= j < i ==> rows[j] != target
  {
    if rows == [] then -1
    else if rows[0] == target then 0
    else
      var k := IndexOf(rows[1..], target);
      if k == -1 then -1 else k + 1
  }

  /** `rows.map(row => row === target ? replacement : row)`: the same number
      of rows, each row that is `target` replaced and every other row kept. */
  function ReplaceIdentical(rows: seq<Record>, target: Record?, replacement: Record): (r: seq<Record>)
    ensures |r| == |rows|
    ensures forall i :: 0 <= i < |rows| ==> r[i] == if rows[i] == target then replacement else rows[i]
  {
    if rows == [] then []
    else [if rows[0] == target then replacement else rows[0]] + ReplaceIdentical(rows[1..], target, replacement)
  }

  /** Saving when the selected row is not among the rows changes nothing. */
  lemma SaveWithoutSelection(rows: seq<Record>, target: Record?, replacement: Record)
    requires IndexOf(rows, target) == -1
    ensures ReplaceIdentical(rows, target, replacement) == rows
  {
  }

  /** A saved copy takes the place of the row it was copied from: a later
      `indexOf` finds the copy at the index the original had, so further
      edits of it are filed under the same row. */
  lemma SavedCopyKeepsIndex(rows: seq<Record>, target: Record, replacement: Record)
    requires 0 <= IndexOf(rows, target)
    requires IndexOf(rows, replacement) == -1
    ensures IndexOf(ReplaceIdentical(rows, target, replacement), replacement) == IndexOf(rows, target)
    ensures IndexOf(ReplaceIdentical(rows, target, replacement), target) == -1
  {
  }

  // ---------------------------------------------------------------------------
  // The component's state and its event handlers

  /** The name of the one input that must hold a number. */
  const NumericField: string := "numericField"
  const InvalidNumberMessage: string := "Please enter a valid number"
  const SavedMessage: string := "Your edited data will reflect here once admin approves it."

  /** A notification the handlers raise. */
  datatype Toast = SuccessToast(message: string) | ErrorToast(message: string)

  /** Whether an input event is refused: only `numericField` is checked,
      and a blank value, which is the number 0, always passes. */
  predicate Rejects(name: string, value: string)
    ensures Rejects(name, value) ==> name == NumericField
    ensures Rejects(name, value) ==> exists i :: 0 <= i < |value| && !JsNumber.IsBlank(value[i])
  {
    name == NumericField && !JsNumber.IsNumeric(value)
  }

  /** One mounted grid: the state variables of the component. The portal
      keeps a single instance for the whole session and only hands it a new
      table name when another table is picked, so the state survives the
      switch. */
  class Grid {
    var tableName: string
    var rowData: seq<Record>
    var colDefs: seq<ColumnDef>
    var isModalOpen: bool
    var selectedRowData: Record?
    var editedData: Record
    var pendingChanges: PendingChanges

    /** The initial state: no rows, no columns, dialog closed, nothing
        selected, an empty edit buffer and no pending changes. */
    constructor (tableName: string)
      ensures this.tableName == tableName
      ensures rowData == [] && colDefs == [] && !isModalOpen
      ensures selectedRowData == null && editedData.fields == Empty && pendingChanges == map[]
    {
      this.tableName := tableName;
      rowData := [];
      colDefs := [];
      isModalOpen := false;
      selectedRowData := null;
      editedData := new Record(Empty);
      pendingChanges := map[];
    }

    /** Picking another table in the sidebar: only the table name prop
        changes; the load that follows is `Load`. */
    method SelectTable(name: string)
      modifies this`tableName
      ensures tableName == name
    {
      tableName := name;
    }

    /** The parse-complete callback, given the parsed rows of `CsvPath(tableName)`:
        a non-empty result installs the columns built from its first row and
        the rows themselves; an empty result leaves both as they were. */
    method Load(data: seq<Record>)
      modifies this`colDefs, this`rowData
      ensures |data| > 0 ==> colDefs == Columns(data[0].fields.keys) && rowData == data
      ensures |data| == 0 ==> colDefs == old(colDefs) && rowData == old(rowData)
    {
      if |data| > 0 {
        colDefs := Columns(data[0].fields.keys);
        rowData := data;
      }
    }

    /** The Edit button of a row: that row becomes the selection, a fresh
        field-by-field copy of it becomes the edit buffer, and the dialog opens. */
    method HandleEditButtonClick(data: Record)
      modifies this`selectedRowData, this`editedData, this`isModalOpen
      ensures selectedRowData == data
      ensures fresh(editedData) && editedData.fields == data.fields
      ensures isModalOpen
    {
      selectedRowData := data;
      editedData := new Record(data.fields);
      isModalOpen := true;
    }

    /** Typing `value` into the input named `name`. A non-numeric value for
        `numericField` raises the error toast and changes nothing. Otherwise
        the edit buffer is replaced by a copy holding `value` under `name`,
        and `name` is appended to the pending list of the selected row's
        index in `rowData` (-1 when the selection is not among the rows). */
    method HandleInputChange(name: string, value: string) returns (toast: Option<Toast>)
      modifies this`editedData, this`pendingChanges
      ensures toast == (if Rejects(name, value) then Some(ErrorToast(InvalidNumberMessage)) else None)
      ensures Rejects(name, value) ==>
        editedData == old(editedData) && pendingChanges == old(pendingChanges)
      ensures !Rejects(name, value) ==>
        && fresh(editedData)
        && editedData.fields == Assign(old(editedData).fields, name, value)
        && pendingChanges == AppendPending(old(pendingChanges), IndexOf(rowData, selectedRowData), name)
    {
      if Rejects(name, value) {
        return Some(ErrorToast(InvalidNumberMessage));
      }
      editedData := new Record(Assign(editedData.fields, name, value));
      var rowId := IndexOf(rowData, selectedRowData);
      pendingChanges := AppendPending(pendingChanges, rowId, name);
      toast := None;
    }

    /** The Save button: every row that is the selected object is replaced by
        the edit buffer, the dialog closes and the success toast is raised;
        the pending changes are not touched. */
    method HandleSave() returns (toast: Toast)
      modifies this`rowData, this`isModalOpen
      ensures rowData == ReplaceIdentical(old(rowData), selectedRowData, editedData)
      ensures !isModalOpen
      ensures toast == SuccessToast(SavedMessage)
    {
      rowData := ReplaceIdentical(rowData, selectedRowData, editedData);
      isModalOpen := false;
      toast := SuccessToast(SavedMessage);
    }

    /** The Cancel button and a request to close the dialog: only the dialog closes. */
    method CloseModal()
      modifies this`isModalOpen
      ensures !isModalOpen
    {
      isModalOpen := false;
    }
  }

  /** One complete edit of a row that is on display: open it, type an accepted
      value into one field, save. Afterwards the row at that index holds the
      edited copy with the new value and every other field of the original,
      that cell is highlighted, no other row changed, and the dialog is closed. */
  method EditAndSave(g: Grid, i: nat, name: string, value: string)
    requires i < |g.rowData| && IndexOf(g.rowData, g.rowData[i]) == i
    requires !Rejects(name, value)
    modifies g
    ensures |g.rowData| == |old(g.rowData)|
    ensures Get(g.rowData[i].fields, name) == Some(value)
    ensures forall k :: k != name ==> Get(g.rowData[i].fields, k) == Get(old(g.rowData[i]).fields, k)
    ensures forall j :: 0 <= j < |g.rowData| && old(g.rowData[j]) != old(g.rowData[i]) ==> g.rowData[j] == old(g.rowData[j])
    ensures CellStyle(g.pendingChanges, i, name) == PendingStyle
    ensures !g.isModalOpen
  {
    var row := g.rowData[i];
    g.HandleEditButtonClick(row);
    var rejected := g.HandleInputChange(name, value);
    var saved := g.HandleSave();
  }

  /** Switching to another table and loading it: the pending changes, the
      selection and the edit buffer carry over, so every cell keeps its
      style. A field pending in row `r` of the old table is highlighted in
      row `r` of the new one whenever that table has a column of that name. */
  method SwitchTable(g: Grid, name: string, data: seq<Record>)
    modifies g
    ensures g.tableName == name
    ensures g.pendingChanges == old(g.pendingChanges)
    ensures g.selectedRowData == old(g.selectedRowData) && g.editedData == old(g.editedData)
    ensures forall r, f :: CellStyle(g.pendingChanges, r, f) == CellStyle(old(g.pendingChanges), r, f)
    ensures |data| > 0 ==> g.rowData == data && g.colDefs == Columns(data[0].fields.keys)
  {
    g.SelectTable(name);
    g.Load(data);
  }
}
