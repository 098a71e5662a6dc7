/**
 What the address book renders for a given state: the table of rows or, when
 the search leaves nothing, a placeholder naming the current chain; and the
 dialogs whose flags (or send target) are set, in the order they are rendered.
 */
module AddressBookView {
  import opened Entries
  import opened SearchFilter
  import opened RowProjection
  import opened ModalState

  /** The main area: the table, or the placeholder with its text. */
  datatype Body = Table(rows: seq<Row>) | Placeholder(text: string)

  /** A dialog on screen, with the props this component hands it. */
  datatype Dialog =
    | ExportDialog
    | ImportDialog
    | EntryDialog(defaultValues: Option<Entry>, disableAddressInput: bool)
    | RemoveDialog(address: string)
    | NewTxModal(recipient: string)

  /** Everything the component renders. */
  datatype Screen = Screen(searchQuery: string, body: Body, dialogs: seq<Dialog>)

  /** The placeholder's text when no chain is known. */
  const NoEntries: string := "No entries found"

  /** The separator between the placeholder text and the chain's name. */
  const On: string := " on "

  /** `No entries found${chain ? ` on ${chain.chainName}` : ''}` */
  function PlaceholderText(chainName: Option<string>): (text: string)
    ensures |text| >= |NoEntries| && text[..|NoEntries|] == NoEntries
    ensures chainName.None? ==> text == NoEntries
    ensures chainName.Some? ==> text[|NoEntries|..] == On + chainName.value
  {
    NoEntries + (if chainName.Some? then On + chainName.value else "")
  }

  /** Reads the chain's name back from a placeholder text. */
  function ChainNameIn(text: string): Option<string> {
    if |text| >= |NoEntries| + |On| then Some(text[|NoEntries| + |On|..]) else None
  }

  /** The placeholder text names the chain, and only when there is one: the
      chain's name is recovered from it exactly. */
  lemma PlaceholderNamesChain(chainName: Option<string>)
    ensures ChainNameIn(PlaceholderText(chainName)) == chainName
  {
    if chainName.Some? {
      var text := PlaceholderText(chainName);
      assert text[|NoEntries| + |On|..] == text[|NoEntries|..][|On|..];
    }
  }

  /** On the chain "Testnet" the placeholder ends in "on Testnet"; with no chain it carries no suffix. */
  lemma PlaceholderScenario()
    ensures PlaceholderText(Some("Testnet")) == "No entries found on Testnet"
    ensures PlaceholderText(None) == "No entries found"
  {
  }

  /** The main area for the entries `book` and the search text: the rows of the
      filtered entries, or the placeholder when no entry matches. */
  function RenderBody(book: seq<Entry>, searchQuery: string, isGranted: bool, chainName: Option<string>): (b: Body)
    ensures b.Placeholder? <==> forall e :: e in book ==> !Matches(e, searchQuery)
    ensures b.Placeholder? ==> b.text == PlaceholderText(chainName)
    ensures b.Placeholder? ==> ChainNameIn(b.text) == chainName
    ensures b.Table? ==> EntriesOf(b.rows) == FilterEntries(book, searchQuery)
    ensures b.Table? ==> forall i :: 0 <= i < |b.rows| ==> WellFormedRow(b.rows[i], isGranted)
  {
    var filtered := FilterEntries(book, searchQuery);
    if |filtered| > 0 then
      assert filtered[0] in filtered;
      EntriesOfProjectRows(filtered, isGranted);
      Table(ProjectRows(filtered, isGranted))
    else
      PlaceholderNamesChain(chainName);
      Placeholder(PlaceholderText(chainName))
  }

  /** An empty address book shows the placeholder, whatever the search. */
  lemma EmptyBookShowsPlaceholder(searchQuery: string, isGranted: bool, chainName: Option<string>)
    ensures RenderBody([], searchQuery, isGranted, chainName) == Placeholder(PlaceholderText(chainName))
  {
  }

  /** The position of a dialog in the component's markup, top to bottom. */
  function Rank(d: Dialog): nat {
    match d
    case ExportDialog => 0
    case ImportDialog => 1
    case EntryDialog(_, _) => 2
    case RemoveDialog(_) => 3
    case NewTxModal(_) => 4
  }

  /** The dialogs appear in markup order, each kind at most once. */
  predicate InMarkupOrder(ds: seq<Dialog>) {
    forall i, j :: 0 <= i < j < |ds| ==> Rank(ds[i]) < Rank(ds[j])
  }

  /** `ds` followed by `{c && <d />}`: the dialog `d` is appended when `c` holds.
      `d` comes later in the markup than every dialog already in `ds`. */
  function Then(ds: seq<Dialog>, c: bool, d: Dialog): (r: seq<Dialog>)
    requires InMarkupOrder(ds)
    requires forall x :: x in ds ==> Rank(x) < Rank(d)
    ensures InMarkupOrder(r)
    ensures forall x :: x in r <==> x in ds || (c && x == d)
    ensures forall x :: x in r ==> Rank(x) <= Rank(d)
  {
    if c then ds + [d] else ds
  }

  /** The four flag-driven dialogs on screen, in the order the component renders them. */
  function FlagDialogs(s: ViewState): (ds: seq<Dialog>)
    ensures ExportDialog in ds <==> s.open.exportOpen
    ensures ImportDialog in ds <==> s.open.importOpen
    ensures forall v, b :: EntryDialog(v, b) in ds <==>
              s.open.entryOpen && v == s.defaultValues && b == DisableAddressInput(s)
    ensures forall a :: RemoveDialog(a) in ds <==> s.open.removeOpen && a == RemoveAddress(s)
    ensures forall d :: d in ds ==> Rank(d) < Rank(NewTxModal(""))
    ensures InMarkupOrder(ds)
  {
    var upToExport := Then([], s.open.exportOpen, ExportDialog);
    var upToImport := Then(upToExport, s.open.importOpen, ImportDialog);
    var upToEntry := Then(upToImport, s.open.entryOpen, EntryDialog(s.defaultValues, DisableAddressInput(s)));
    Then(upToEntry, s.open.removeOpen, RemoveDialog(RemoveAddress(s)))
  }

  /** The send dialog, shown when the send target is a non-empty address (`selectedAddress &&`). */
  function SendDialogs(s: ViewState): (ds: seq<Dialog>)
    ensures forall d :: d in ds ==> d.NewTxModal?
    ensures forall r :: NewTxModal(r) in ds <==> s.selectedAddress == Some(r) && r != ""
  {
    if s.selectedAddress.Some? && s.selectedAddress.value != "" then [NewTxModal(s.selectedAddress.value)] else []
  }

  /** The dialogs on screen, in the order the component renders them. */
  function RenderDialogs(s: ViewState): (ds: seq<Dialog>)
    ensures ExportDialog in ds <==> s.open.exportOpen
    ensures ImportDialog in ds <==> s.open.importOpen
    ensures forall v, b :: EntryDialog(v, b) in ds <==>
              s.open.entryOpen && v == s.defaultValues && b == DisableAddressInput(s)
    ensures forall a :: RemoveDialog(a) in ds <==> s.open.removeOpen && a == RemoveAddress(s)
    ensures forall r :: NewTxModal(r) in ds <==> s.selectedAddress == Some(r) && r != ""
    ensures InMarkupOrder(ds)
  {
    FlagDialogs(s) + SendDialogs(s)
  }

  /** Closing a flag-driven dialog takes down all four of them and leaves the send dialog as it was. */
  lemma CloseLeavesOnlySend(s: ViewState)
    ensures RenderDialogs(Close(s)) == SendDialogs(s)
  {
  }

  /** Closing the send dialog takes down only the send dialog. */
  lemma CloseSendLeavesOthers(s: ViewState)
    ensures RenderDialogs(CloseSend(s)) + SendDialogs(s) == RenderDialogs(s)
  {
  }

  /** The whole screen for a state, the address book's entries, the send permission and the chain. */
  function Render(s: ViewState, book: seq<Entry>, isGranted: bool, chainName: Option<string>): (r: Screen)
    ensures r.searchQuery == s.searchQuery
    ensures r.body.Placeholder? <==> forall e :: e in book ==> !Matches(e, s.searchQuery)
    ensures r.body.Placeholder? ==> r.body.text == PlaceholderText(chainName)
    ensures r.body.Table? ==> EntriesOf(r.body.rows) == FilterEntries(book, s.searchQuery)
    ensures r.body.Table? ==> forall i :: 0 <= i < |r.body.rows| ==> WellFormedRow(r.body.rows[i], isGranted)
    ensures InMarkupOrder(r.dialogs)
    ensures forall d :: d in r.dialogs <==> d in RenderDialogs(s)
  {
    Screen(s.searchQuery, RenderBody(book, s.searchQuery, isGranted, chainName), RenderDialogs(s))
  }

  /** The event a row's button raises: the handlers close over the entry the row was built from. */
  function Click(row: Row, a: Action): (ev: Event)
    ensures a == EditEntry ==> ev == RowEdit(EntryOf(row).address, EntryOf(row).name)
    ensures a == DeleteEntry ==> ev == RowDelete(EntryOf(row).address, EntryOf(row).name)
    ensures a == SendFunds ==> ev == RowSend(EntryOf(row).address)
    ensures a == EditEntry ==> forall s :: Step(s, ev).open.entryOpen && Step(s, ev).defaultValues == Some(EntryOf(row))
    ensures a == DeleteEntry ==> forall s :: Step(s, ev).open.removeOpen && Step(s, ev).defaultValues == Some(EntryOf(row))
    ensures a == SendFunds ==> forall s :: Step(s, ev).selectedAddress == Some(EntryOf(row).address) && Step(s, ev).open == s.open
  {
    var e := EntryOf(row);
    match a
    case EditEntry => RowEdit(e.address, e.name)
    case DeleteEntry => RowDelete(e.address, e.name)
    case SendFunds => RowSend(e.address)
  }

  /** Only the search box changes what the main area shows: a dialog event
      renders the same table or placeholder as before. */
  lemma DialogEventsKeepBody(s: ViewState, ev: Event, book: seq<Entry>, isGranted: bool, chainName: Option<string>)
    requires !ev.Search?
    ensures Render(Step(s, ev), book, isGranted, chainName).body == Render(s, book, isGranted, chainName).body
  {
  }

  /** Row `i` of the table stands for the `i`-th filtered entry and is well formed. */
  lemma TableRow(s: ViewState, book: seq<Entry>, isGranted: bool, chainName: Option<string>, i: int)
    requires Render(s, book, isGranted, chainName).body.Table?
    requires 0 <= i < |Render(s, book, isGranted, chainName).body.rows|
    ensures var row := Render(s, book, isGranted, chainName).body.rows[i];
            && i < |FilterEntries(book, s.searchQuery)|
            && EntryOf(row) == FilterEntries(book, s.searchQuery)[i]
            && WellFormedRow(row, isGranted)
  {
  }

  /** Row `i`'s Edit button opens the entry dialog filled with the `i`-th
      filtered entry, with the address field locked iff that entry has a name. */
  lemma RowEditOpensEntry(s: ViewState, book: seq<Entry>, isGranted: bool, chainName: Option<string>, i: int)
    requires Render(s, book, isGranted, chainName).body.Table?
    requires 0 <= i < |Render(s, book, isGranted, chainName).body.rows|
    ensures i < |FilterEntries(book, s.searchQuery)|
    ensures var e := FilterEntries(book, s.searchQuery)[i];
            EntryDialog(Some(e), e.name != "")
              in RenderDialogs(Step(s, Click(Render(s, book, isGranted, chainName).body.rows[i], EditEntry)))
  {
  }

  /** Row `i`'s Delete button opens the remove dialog for the `i`-th filtered entry's address. */
  lemma RowDeleteOpensRemove(s: ViewState, book: seq<Entry>, isGranted: bool, chainName: Option<string>, i: int)
    requires Render(s, book, isGranted, chainName).body.Table?
    requires 0 <= i < |Render(s, book, isGranted, chainName).body.rows|
    ensures i < |FilterEntries(book, s.searchQuery)|
    ensures RemoveDialog(FilterEntries(book, s.searchQuery)[i].address)
              in RenderDialogs(Step(s, Click(Render(s, book, isGranted, chainName).body.rows[i], DeleteEntry)))
  {
  }

  /** Row `i` offers Send iff the user may send, and Send opens the send dialog
      for the `i`-th filtered entry's address unless that address is empty. */
  lemma RowSendOpensSend(s: ViewState, book: seq<Entry>, isGranted: bool, chainName: Option<string>, i: int)
    requires Render(s, book, isGranted, chainName).body.Table?
    requires 0 <= i < |Render(s, book, isGranted, chainName).body.rows|
    ensures i < |FilterEntries(book, s.searchQuery)|
    ensures var row := Render(s, book, isGranted, chainName).body.rows[i];
            SendFunds in row.actions.content.actions <==> isGranted
    ensures var a := FilterEntries(book, s.searchQuery)[i].address;
            (NewTxModal(a) in RenderDialogs(Step(s, Click(Render(s, book, isGranted, chainName).body.rows[i], SendFunds)))
             <==> a != "")
  {
    var row := Render(s, book, isGranted, chainName).body.rows[i];
    TableRow(s, book, isGranted, chainName, i);
    assert EntryOf(row) == FilterEntries(book, s.searchQuery)[i];
  }
}
