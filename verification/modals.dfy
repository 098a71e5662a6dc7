/**
 The component's view state and its transitions: four independent "is this
 dialog open" flags, the values the entry and remove dialogs are opened with,
 the address the send dialog is opened for, and the search box text.
 The flags are NOT mutually exclusive: opening a dialog sets its own flag and
 leaves the others as they were.
 */
module ModalState {
  import opened Entries

  /** The dialogs driven by the open flags (`ModalType`). */
  datatype ModalType = ExportModal | ImportModal | EntryModal | RemoveModal

  /** The `open` record: one flag per `ModalType`. */
  datatype OpenFlags = OpenFlags(exportOpen: bool, importOpen: bool, entryOpen: bool, removeOpen: bool) {

    /** `open[t]` */
    function IsOpen(t: ModalType): bool {
      match t
      case ExportModal => exportOpen
      case ImportModal => importOpen
      case EntryModal => entryOpen
      case RemoveModal => removeOpen
    }

    /** `{ ...open, [t]: true }`: flag `t` raised, the others as they were. */
    function With(t: ModalType): (f: OpenFlags)
      ensures f.IsOpen(t)
      ensures forall u :: u != t ==> f.IsOpen(u) == IsOpen(u)
    {
      match t
      case ExportModal => this.(exportOpen := true)
      case ImportModal => this.(importOpen := true)
      case EntryModal => this.(entryOpen := true)
      case RemoveModal => this.(removeOpen := true)
    }
  }

  /** `defaultOpen`: every flag lowered. */
  const DefaultOpen: OpenFlags := OpenFlags(false, false, false, false)

  /** No dialog flag is raised. */
  predicate AllClosed(f: OpenFlags) {
    forall t :: !f.IsOpen(t)
  }

  /** The component's state hooks. */
  datatype ViewState = ViewState(
    open: OpenFlags,
    searchQuery: string,
    defaultValues: Option<Entry>,
    selectedAddress: Option<string>)

  /** The state on first render: nothing open, empty search, no values. */
  const Initial: ViewState := ViewState(DefaultOpen, "", None, None)

  /** `handleOpenModal(t)()`: raises flag `t` and changes nothing else. */
  function OpenModal(s: ViewState, t: ModalType): (s': ViewState)
    ensures s'.open.IsOpen(t)
    ensures forall u :: u != t ==> s'.open.IsOpen(u) == s.open.IsOpen(u)
    ensures s'.searchQuery == s.searchQuery
    ensures s'.defaultValues == s.defaultValues
    ensures s'.selectedAddress == s.selectedAddress
  {
    s.(open := s.open.With(t))
  }

  /** `handleOpenModalWithValues(t, address, name)`: records the values, then raises flag `t`. */
  function OpenModalWithValues(s: ViewState, t: ModalType, address: string, name: string): (s': ViewState)
    ensures s'.open.IsOpen(t)
    ensures forall u :: u != t ==> s'.open.IsOpen(u) == s.open.IsOpen(u)
    ensures s'.defaultValues == Some(Entry(address, name))
    ensures s'.searchQuery == s.searchQuery
    ensures s'.selectedAddress == s.selectedAddress
  {
    OpenModal(s.(defaultValues := Some(Entry(address, name))), t)
  }

  /** `handleClose`: lowers every flag and forgets the values, but leaves the send target alone. */
  function Close(s: ViewState): (s': ViewState)
    ensures AllClosed(s'.open)
    ensures s'.defaultValues == None
    ensures s'.searchQuery == s.searchQuery
    ensures s'.selectedAddress == s.selectedAddress
  {
    s.(open := DefaultOpen, defaultValues := None)
  }

  /** A row's Send button: `setSelectedAddress(address)`. */
  function OpenSend(s: ViewState, address: string): (s': ViewState)
    ensures s'.selectedAddress == Some(address)
    ensures s'.open == s.open && s'.defaultValues == s.defaultValues && s'.searchQuery == s.searchQuery
  {
    s.(selectedAddress := Some(address))
  }

  /** The send dialog's `onClose`: `setSelectedAddress(undefined)`, nothing else. */
  function CloseSend(s: ViewState): (s': ViewState)
    ensures s'.selectedAddress == None
    ensures s'.open == s.open && s'.defaultValues == s.defaultValues && s'.searchQuery == s.searchQuery
  {
    s.(selectedAddress := None)
  }

  /** The header's search box: `setSearchQuery(q)`. */
  function SetSearchQuery(s: ViewState, q: string): (s': ViewState)
    ensures s'.searchQuery == q
    ensures s'.open == s.open && s'.defaultValues == s.defaultValues && s'.selectedAddress == s.selectedAddress
  {
    s.(searchQuery := q)
  }

  /** `Boolean(defaultValues?.name)`: the entry dialog locks the address field
      exactly when it was opened with values whose name is not empty. */
  function DisableAddressInput(s: ViewState): (b: bool)
    ensures b <==> exists e :: s.defaultValues == Some(e) && e.name != ""
  {
    s.defaultValues.Some? && s.defaultValues.value.name != ""
  }

  /** `defaultValues?.address || ''`: the address handed to the remove dialog. */
  function RemoveAddress(s: ViewState): (a: string)
    ensures s.defaultValues.Some? ==> a == s.defaultValues.value.address
    ensures s.defaultValues.None? ==> a == ""
  {
    if s.defaultValues.Some? && s.defaultValues.value.address != "" then s.defaultValues.value.address
    else ""
  }

  /** Closing twice is closing once. */
  lemma CloseIdempotent(s: ViewState)
    ensures Close(Close(s)) == Close(s)
  {
  }

  /** The flags are independent: opening a second dialog leaves the first one's flag raised. */
  lemma OpeningDoesNotCloseOthers(s: ViewState, t: ModalType, u: ModalType)
    ensures OpenModal(OpenModal(s, t), u).open.IsOpen(t)
    ensures OpenModal(OpenModal(s, t), u).open.IsOpen(u)
  {
  }

  /** Editing an entry and closing leaves no stale values: the header's "Add entry"
      then opens the entry dialog empty, with the address field unlocked. */
  lemma EditCloseThenAdd(s: ViewState, address: string, name: string)
    ensures var s' := OpenModal(Close(OpenModalWithValues(s, EntryModal, address, name)), EntryModal);
      && s'.open.IsOpen(EntryModal)
      && s'.defaultValues == None
      && !DisableAddressInput(s')
      && RemoveAddress(s') == ""
  {
  }

  /** What can happen to the state: the header's buttons and search box, a row's
      buttons, and a dialog reporting that it is done. */
  datatype Event =
    | HeaderOpen(t: ModalType)                  // the header calls `handleOpenModal(t)()`
    | RowEdit(address: string, name: string)    // a row's Edit button
    | RowDelete(address: string, name: string)  // a row's Delete button
    | RowSend(address: string)                  // a row's Send button
    | DialogClosed                              // a flag-driven dialog calls `handleClose`
    | SendClosed                                // the send dialog calls its `onClose`
    | Search(q: string)                         // the search box changes

  /** The state after one event: each event runs the handler the component wires to it. */
  function Step(s: ViewState, ev: Event): (s': ViewState)
    ensures ev.HeaderOpen? ==>
      && s'.open.IsOpen(ev.t)
      && (forall u :: u != ev.t ==> s'.open.IsOpen(u) == s.open.IsOpen(u))
      && s'.defaultValues == s.defaultValues && s'.selectedAddress == s.selectedAddress
    ensures ev.RowEdit? ==>
      && s'.open.entryOpen && s'.defaultValues == Some(Entry(ev.address, ev.name))
      && s'.selectedAddress == s.selectedAddress
    ensures ev.RowDelete? ==>
      && s'.open.removeOpen && s'.defaultValues == Some(Entry(ev.address, ev.name))
      && s'.selectedAddress == s.selectedAddress
    ensures (ev.RowEdit? || ev.RowDelete?) ==>
      forall u :: u != (if ev.RowEdit? then EntryModal else RemoveModal) ==> s'.open.IsOpen(u) == s.open.IsOpen(u)
    ensures ev.RowSend? ==>
      s'.selectedAddress == Some(ev.address) && s'.open == s.open && s'.defaultValues == s.defaultValues
    ensures ev.DialogClosed? ==>
      AllClosed(s'.open) && s'.defaultValues == None && s'.selectedAddress == s.selectedAddress
    ensures ev.SendClosed? ==>
      s'.selectedAddress == None && s'.open == s.open && s'.defaultValues == s.defaultValues
    ensures ev.Search? ==>
      s'.searchQuery == ev.q && s'.open == s.open && s'.defaultValues == s.defaultValues
      && s'.selectedAddress == s.selectedAddress
    ensures !ev.Search? ==> s'.searchQuery == s.searchQuery
  {
    match ev
    case HeaderOpen(t) => OpenModal(s, t)
    case RowEdit(address, name) => OpenModalWithValues(s, EntryModal, address, name)
    case RowDelete(address, name) => OpenModalWithValues(s, RemoveModal, address, name)
    case RowSend(address) => OpenSend(s, address)
    case DialogClosed => Close(s)
    case SendClosed => CloseSend(s)
    case Search(q) => SetSearchQuery(s, q)
  }

  /** The state after a sequence of events, in order. */
  function Run(s: ViewState, evs: seq<Event>): ViewState
    decreases |evs|
  {
    if |evs| == 0 then s else Run(Step(s, evs[0]), evs[1..])
  }

  /** Values are only held while a dialog that reads them is open: no stale
      values wait around for the next dialog. */
  predicate NoStaleValues(s: ViewState) {
    s.defaultValues.Some? ==> s.open.entryOpen || s.open.removeOpen
  }

  /** Every event keeps values tied to an open entry or remove dialog. */
  lemma StepKeepsNoStaleValues(s: ViewState, ev: Event)
    requires NoStaleValues(s)
    ensures NoStaleValues(Step(s, ev))
  {
  }

  /** Any sequence of events keeps values tied to an open entry or remove dialog. */
  lemma {:induction false} RunKeepsNoStaleValues(s: ViewState, evs: seq<Event>)
    requires NoStaleValues(s)
    ensures NoStaleValues(Run(s, evs))
    decreases |evs|
  {
    if |evs| > 0 {
      StepKeepsNoStaleValues(s, evs[0]);
      RunKeepsNoStaleValues(Step(s, evs[0]), evs[1..]);
    }
  }

  /** From the first render, whatever the user does, values are never held
      while both the entry and the remove dialogs are closed. */
  lemma ReachableHasNoStaleValues(evs: seq<Event>)
    ensures NoStaleValues(Run(Initial, evs))
  {
    RunKeepsNoStaleValues(Initial, evs);
  }

  /** Only the search box changes the search text: no dialog event touches it. */
  lemma {:induction false} RunKeepsQueryWithoutSearch(s: ViewState, evs: seq<Event>)
    requires forall k :: 0 <= k < |evs| ==> !evs[k].Search?
    ensures Run(s, evs).searchQuery == s.searchQuery
    decreases |evs|
  {
    if |evs| > 0 {
      RunKeepsQueryWithoutSearch(Step(s, evs[0]), evs[1..]);
    }
  }
}
