/**
 * The meta-table route: a stored table served as JSON records, and the
 * dispatch of cell edits to the content or the selection update.
 */
module TableRoute {
  import opened Wrappers
  import opened Tables

  /** What the framework answers when the handler raises. */
  const InternalError := HttpError(500, "Internal Server Error")

  // ---------------------------------------------------------------------------
  // get_table_dataframe

  /** A fresh frame's labels 0..c-1 are distinct, so the duplicate rename leaves it as it is. */
  lemma RenameKeepsFreshFrame(f: Frame)
    requires Plain(f)
    ensures WithRenamedColumns(f) == f
  {
    assert Distinct(f.labels) by {
      assert forall i :: 0 <= i < |f.labels| ==> f.labels[i] == Col(i);
    }
    RenameIdentityOnDistinct(f.labels);
  }

  /**
   * get_table_dataframe for the table the repository found (None when there
   * is none): 404 when missing, 500 when a cell lies outside the table, else
   * the records of the grid with the builder's contents, row by row.
   */
  method GetTableDataframe(found: Option<TableData>) returns (r: Result<Grid, HttpError>)
    ensures found.None? ==> r == Err(HttpError(404, "Not Found"))
    ensures found.Some? ==> (r.Err? <==> StructuredFrame(found.value).Err?)
    ensures found.Some? && r.Err? ==> r.error == InternalError
    ensures r.Ok? ==> (|r.value| == found.value.rowCount
      && forall i, j :: 0 <= i < found.value.rowCount && 0 <= j < found.value.colCount ==>
        j < |r.value[i]| && r.value[i][j] == Anchored(found.value.cells, i, j))
  {
    if found.None? {
      return Err(HttpError(404, "Not Found"));
    }
    var frame := TabledataToStructuredDataframe(found.value);
    if frame.Err? {
      return Err(InternalError);
    }
    var renamed := WithRenamedColumns(frame.value);
    RenameKeepsFreshFrame(frame.value);
    var records := ToRecords(renamed);
    assert Distinct(renamed.labels) by {
      assert forall i :: 0 <= i < |renamed.labels| ==> renamed.labels[i] == Col(i);
    }
    r := Ok(records.value);
  }

  // ---------------------------------------------------------------------------
  // change_table_cell_data

  /** The two edit kinds the query accepts; the framework refuses any other value. */
  datatype ModificationType = Selectable | Content

  /** One requested change: the cell id and its new content and selection flag. */
  datatype CellEdit = CellEdit(id: nat, content: string, selectable: bool)

  /** A stored cell row: its id, the table row it belongs to, its content and flag. */
  datatype CellRow = CellRow(id: nat, tabledataId: nat, content: string, selectable: bool)

  /** The update's filter: the cell belongs to table tableId of meta table metaId. */
  predicate InTable(row: CellRow, tableMeta: map<nat, nat>, metaId: nat, tableId: nat)
  {
    row.tabledataId == tableId && tableId in tableMeta && tableMeta[tableId] == metaId
  }

  /** The content a row ends with: that of the last edit naming its id, or its own. */
  function EditedContent(row: CellRow, edits: seq<CellEdit>): string
  {
    if edits == [] then row.content
    else if edits[|edits| - 1].id == row.id then edits[|edits| - 1].content
    else EditedContent(row, edits[..|edits| - 1])
  }

  function EditedSelectable(row: CellRow, edits: seq<CellEdit>): bool
  {
    if edits == [] then row.selectable
    else if edits[|edits| - 1].id == row.id then edits[|edits| - 1].selectable
    else EditedSelectable(row, edits[..|edits| - 1])
  }

  /** change_table_cell_content: every row of the table takes its edited content; nothing else changes. */
  function ContentUpdated(cells: seq<CellRow>, tableMeta: map<nat, nat>, metaId: nat, tableId: nat, edits: seq<CellEdit>)
    : (r: seq<CellRow>)
    ensures |r| == |cells|
    ensures forall k :: 0 <= k < |cells| ==>
      r[k] == (if InTable(cells[k], tableMeta, metaId, tableId)
        then cells[k].(content := EditedContent(cells[k], edits)) else cells[k])
  {
    seq(|cells|, k requires 0 <= k < |cells| =>
      if InTable(cells[k], tableMeta, metaId, tableId)
      then cells[k].(content := EditedContent(cells[k], edits)) else cells[k])
  }

  /** change_table_cell_selectable: every row of the table takes its edited flag; nothing else changes. */
  function SelectableUpdated(cells: seq<CellRow>, tableMeta: map<nat, nat>, metaId: nat, tableId: nat, edits: seq<CellEdit>)
    : (r: seq<CellRow>)
    ensures |r| == |cells|
    ensures forall k :: 0 <= k < |cells| ==>
      r[k] == (if InTable(cells[k], tableMeta, metaId, tableId)
        then cells[k].(selectable := EditedSelectable(cells[k], edits)) else cells[k])
  {
    seq(|cells|, k requires 0 <= k < |cells| =>
      if InTable(cells[k], tableMeta, metaId, tableId)
      then cells[k].(selectable := EditedSelectable(cells[k], edits)) else cells[k])
  }

  /** An edit whose id no later edit repeats decides the content of that cell. */
  lemma {:induction false} LastEditWins(row: CellRow, edits: seq<CellEdit>, e: nat)
    requires e < |edits| && edits[e].id == row.id
    requires forall e' :: e < e' < |edits| ==> edits[e'].id != row.id
    ensures EditedContent(row, edits) == edits[e].content
    ensures EditedSelectable(row, edits) == edits[e].selectable
  {
    if e < |edits| - 1 {
      LastEditWins(row, edits[..|edits| - 1], e);
    }
  }

  /** A cell no edit names keeps its content and flag. */
  lemma {:induction false} UneditedStays(row: CellRow, edits: seq<CellEdit>)
    requires forall e :: 0 <= e < |edits| ==> edits[e].id != row.id
    ensures EditedContent(row, edits) == row.content
    ensures EditedSelectable(row, edits) == row.selectable
  {
    if edits != [] {
      UneditedStays(row, edits[..|edits| - 1]);
    }
  }

  /** The cell rows and the meta table of each table row. */
  class CellStore {
    var cells: seq<CellRow>
    var tableMeta: map<nat, nat>

    constructor(cells: seq<CellRow>, tableMeta: map<nat, nat>)
      ensures this.cells == cells && this.tableMeta == tableMeta
    {
      this.cells := cells;
      this.tableMeta := tableMeta;
    }

    /** One UPDATE per edit, in request order. */
    method ChangeTableCellContent(metaId: nat, tableId: nat, edits: seq<CellEdit>)
      modifies this
      ensures tableMeta == old(tableMeta)
      ensures cells == ContentUpdated(old(cells), tableMeta, metaId, tableId, edits)
    {
      ghost var start := cells;
      for e := 0 to |edits|
        invariant tableMeta == old(tableMeta) && |cells| == |start|
        invariant cells == ContentUpdated(start, tableMeta, metaId, tableId, edits[..e])
      {
        var edit := edits[e];
        var current := cells;
        var meta := tableMeta;
        cells := seq(|current|, k requires 0 <= k < |current| =>
          if current[k].id == edit.id && InTable(current[k], meta, metaId, tableId)
          then current[k].(content := edit.content) else current[k]);
        assert edits[..e + 1][..e] == edits[..e];
        forall k | 0 <= k < |cells|
          ensures cells[k] == ContentUpdated(start, tableMeta, metaId, tableId, edits[..e + 1])[k]
        {
          assert EditedContent(start[k], edits[..e + 1]) == (if edit.id == start[k].id then edit.content
            else EditedContent(start[k], edits[..e]));
        }
      }
      assert edits[..|edits|] == edits;
    }

    method ChangeTableCellSelectable(metaId: nat, tableId: nat, edits: seq<CellEdit>)
      modifies this
      ensures tableMeta == old(tableMeta)
      ensures cells == SelectableUpdated(old(cells), tableMeta, metaId, tableId, edits)
    {
      ghost var start := cells;
      for e := 0 to |edits|
        invariant tableMeta == old(tableMeta) && |cells| == |start|
        invariant cells == SelectableUpdated(start, tableMeta, metaId, tableId, edits[..e])
      {
        var edit := edits[e];
        var current := cells;
        var meta := tableMeta;
        cells := seq(|current|, k requires 0 <= k < |current| =>
          if current[k].id == edit.id && InTable(current[k], meta, metaId, tableId)
          then current[k].(selectable := edit.selectable) else current[k]);
        assert edits[..e + 1][..e] == edits[..e];
        forall k | 0 <= k < |cells|
          ensures cells[k] == SelectableUpdated(start, tableMeta, metaId, tableId, edits[..e + 1])[k]
        {
          assert EditedSelectable(start[k], edits[..e + 1]) == (if edit.id == start[k].id then edit.selectable
            else EditedSelectable(start[k], edits[..e]));
        }
      }
      assert edits[..|edits|] == edits;
    }
  }

  /** change_table_cell_data: "content" edits contents, "selectable" edits flags, of the given table only. */
  method ChangeTableCellData(store: CellStore, metaId: nat, tableId: nat, edits: seq<CellEdit>, kind: ModificationType)
    modifies store
    ensures store.tableMeta == old(store.tableMeta)
    ensures kind == Content ==> store.cells == ContentUpdated(old(store.cells), store.tableMeta, metaId, tableId, edits)
    ensures kind == Selectable ==> store.cells == SelectableUpdated(old(store.cells), store.tableMeta, metaId, tableId, edits)
  {
    if kind == Content {
      store.ChangeTableCellContent(metaId, tableId, edits);
      return;
    }
    if kind == Selectable {
      store.ChangeTableCellSelectable(metaId, tableId, edits);
      return;
    }
  }
}
