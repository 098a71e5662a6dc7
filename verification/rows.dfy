/**
 The table rows built from the filtered entries (`rows`): one row per entry,
 with a name cell, an address cell and a sticky actions cell whose buttons are
 Edit and Delete always and Send only for a user allowed to send.
 */
module RowProjection {
  import opened Entries

  /** The buttons of a row's actions cell. */
  datatype Action = EditEntry | DeleteEntry | SendFunds

  /** What a cell renders. The widgets are opaque: only the data they are given is kept. */
  datatype Content =
    | Label(text: string)              // the name, rendered as text
    | AddressInfo(address: string)     // the address widget, with its fixed display options
    | ActionBar(actions: set<Action>)  // the buttons of the actions cell

  /** One table cell: the raw value used for sorting, what it renders, and whether it is pinned. */
  datatype Cell = Cell(rawValue: string, content: Content, sticky: bool)

  /** One table row, keyed by the column ids `name`, `address` and `actions`. */
  datatype Row = Row(name: Cell, address: Cell, actions: Cell)

  /** The buttons a row offers: Send appears only when the user may send. */
  function ActionsFor(isGranted: bool): (acts: set<Action>)
    ensures EditEntry in acts && DeleteEntry in acts
    ensures SendFunds in acts <==> isGranted
  {
    if isGranted then {EditEntry, DeleteEntry, SendFunds} else {EditEntry, DeleteEntry}
  }

  /** The row for one entry. */
  function ProjectEntry(e: Entry, isGranted: bool): Row {
    Row(
      Cell(e.name, Label(e.name), false),
      Cell(e.address, AddressInfo(e.address), false),
      Cell("", ActionBar(ActionsFor(isGranted)), true))
  }

  /** The entry a row stands for, read back from the raw values of its cells. */
  function EntryOf(row: Row): Entry {
    Entry(row.address.rawValue, row.name.rawValue)
  }

  /** A row as the table expects it: each cell renders its own raw value, the
      actions cell is empty and pinned, and its buttons are Edit, Delete and,
      exactly when the user may send, Send. */
  predicate WellFormedRow(row: Row, isGranted: bool) {
    && row.name.content == Label(row.name.rawValue) && !row.name.sticky
    && row.address.content == AddressInfo(row.address.rawValue) && !row.address.sticky
    && row.actions.rawValue == "" && row.actions.sticky
    && row.actions.content.ActionBar?
    && EditEntry in row.actions.content.actions
    && DeleteEntry in row.actions.content.actions
    && (SendFunds in row.actions.content.actions <==> isGranted)
  }

  /** `filteredEntries.map(...)`: one row per entry, in the same order. */
  function ProjectRows(es: seq<Entry>, isGranted: bool): (rows: seq<Row>)
    ensures |rows| == |es|
    ensures forall i :: 0 <= i < |es| ==> EntryOf(rows[i]) == es[i]
    ensures forall i :: 0 <= i < |rows| ==> WellFormedRow(rows[i], isGranted)
  {
    seq(|es|, i requires 0 <= i < |es| => ProjectEntry(es[i], isGranted))
  }

  /** The entries read back from a table, in row order. */
  function EntriesOf(rows: seq<Row>): (es: seq<Entry>)
    ensures |es| == |rows|
  {
    seq(|rows|, i requires 0 <= i < |rows| => EntryOf(rows[i]))
  }

  /** Reading the entries back from the rows gives exactly the entries the rows were built from. */
  lemma EntriesOfProjectRows(es: seq<Entry>, isGranted: bool)
    ensures EntriesOf(ProjectRows(es, isGranted)) == es
  {
  }

  /** Conversely, a well-formed row is determined by its entry: rebuilding the
      rows from the entries read back from them gives the same rows. */
  lemma ProjectRowsOfEntriesOf(rows: seq<Row>, isGranted: bool)
    requires forall i :: 0 <= i < |rows| ==> WellFormedRow(rows[i], isGranted)
    ensures ProjectRows(EntriesOf(rows), isGranted) == rows
  {
    forall i | 0 <= i < |rows| ensures ProjectEntry(EntryOf(rows[i]), isGranted) == rows[i] {
      var acts := rows[i].actions.content.actions;
      assert acts == ActionsFor(isGranted) by {
        forall a: Action ensures a in acts <==> a in ActionsFor(isGranted) {
          match a
          case EditEntry =>
          case DeleteEntry =>
          case SendFunds =>
        }
      }
    }
  }
}
